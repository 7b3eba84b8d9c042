/** Boot stages and the boot loop counter, over any number of boots. */
module BootStages {

  /** What the daemon finds when the post-fs-data request comes. */
  datatype Environment = Environment(dataReady: bool, secureDir: bool, oldSdk: bool, envComplete: bool, safeRequested: bool)

  datatype Request = PostFsData(env: Environment) | LateStart | BootComplete | OtherRequest

  /** A request to the daemon, or a reboot. */
  datatype Event = Reboot | Handle(request: Request)

  /** What the daemon did: stages it ran, with the counter a post-fs-data run started from if it got that far. */
  datatype Entry = Booted | RanPostFsData(counted: bool, was: nat, safe: bool) | RanLateStart | RanBootComplete

  /** The stage flags and stored settings. */
  class Daemon {
    var postFsDataDone: bool
    var lateStartDone: bool
    var bootComplete: bool
    var safeMode: bool

    var bootloopCount: nat
    var zygiskConfig: nat
    var modulesDisabled: bool

    ghost var log: seq<Entry>

    constructor ()
      ensures Valid() && log == [Booted] && bootloopCount == 0
    {
      postFsDataDone, lateStartDone, bootComplete, safeMode := false, false, false, false;
      bootloopCount, zygiskConfig, modulesDisabled := 0, 0, false;
      log := [Booted];
    }

    /** The flags and the counter say what the log says, and the log is in order. */
    ghost predicate Valid()
      reads this
    {
      && InOrder(log) && bootloopCount == CountedRuns(log)
      && postFsDataDone == RanIn(log) && safeMode == SafeIn(log)
      && lateStartDone == StageIn(log, RanLateStart) && bootComplete == StageIn(log, RanBootComplete)
    }

    /** `post_fs_data`; true asks for safe mode. */
    method RunPostFsData(env: Environment) returns (safe: bool)
      modifies this`bootloopCount, this`zygiskConfig, this`modulesDisabled
      ensures var e := PostFsDataEntry(old(bootloopCount), env);
              && safe == e.safe && bootloopCount == old(bootloopCount) + (if e.counted then 1 else 0)
              && (safe && e.counted ==> modulesDisabled && zygiskConfig == 0)
              && (!(safe && e.counted) ==> modulesDisabled == old(modulesDisabled) && zygiskConfig == old(zygiskConfig))
    {
      if !env.secureDir && !env.oldSdk { return true; }
      if !env.envComplete { return true; }
      var count := bootloopCount;
      bootloopCount := count + 1;
      safe := count >= 2 || env.safeRequested;
      if safe {
        modulesDisabled := true;
        zygiskConfig := 0;
      }
    }

    /** `boot_stage_handler` */
    method HandleRequest(request: Request)
      requires Valid()
      modifies this
      ensures Valid()
      ensures log == old(log) + Response(old(postFsDataDone), old(safeMode), old(bootloopCount), request)
    {
      hide CountedRuns, RanIn, SafeIn, StageIn, InOrder;
      match request
      case PostFsData(env) =>
        if env.dataReady && !postFsDataDone {
          ghost var entry := PostFsDataEntry(bootloopCount, env);
          OneMore(log, entry);
          var safe := RunPostFsData(env);
          log := log + [entry];
          if safe {
            safeMode := true;
          }
          postFsDataDone := true;
        }
      case LateStart =>
        if postFsDataDone && !safeMode {
          OneMore(log, RanLateStart);
          log := log + [RanLateStart];
          lateStartDone := true;
        }
      case BootComplete =>
        if postFsDataDone {
          bootComplete := true;
          OneMore(log, RanBootComplete);
          log := log + [RanBootComplete];
          bootloopCount := 0;
        }
      case OtherRequest =>
    }

    /** A new boot: the flags are gone, the settings stay. */
    method Restart()
      requires Valid()
      modifies this
      ensures Valid() && log == old(log) + [Booted] && bootloopCount == old(bootloopCount)
    {
      hide CountedRuns, RanIn, SafeIn, StageIn, InOrder;
      postFsDataDone, lateStartDone, bootComplete, safeMode := false, false, false, false;
      OneMore(log, Booted);
      log := log + [Booted];
    }

    /** Any sequence of requests and reboots. */
    method Run(events: seq<Event>)
      requires Valid()
      modifies this
      ensures Valid() && old(log) <= log
    {
      for i := 0 to |events|
        invariant Valid() && old(log) <= log
      {
        match events[i]
        case Reboot => Restart();
        case Handle(request) => HandleRequest(request);
      }
    }
  }

  /** How a run of post-fs-data goes: it may give up early, count, and ask for safe mode. */
  function PostFsDataEntry(count: nat, env: Environment): Entry {
    if (!env.secureDir && !env.oldSdk) || !env.envComplete then RanPostFsData(false, 0, true)
    else RanPostFsData(true, count, count >= 2 || env.safeRequested)
  }

  /** The stage a request runs, if any. */
  function Response(ran: bool, safe: bool, count: nat, request: Request): seq<Entry> {
    match request
    case PostFsData(env) => if env.dataReady && !ran then [PostFsDataEntry(count, env)] else []
    case LateStart => if ran && !safe then [RanLateStart] else []
    case BootComplete => if ran then [RanBootComplete] else []
    case OtherRequest => []
  }

  // ----- what a log says -----

  /** Counted post-fs-data runs since the last boot-complete. */
  function CountedRuns(log: seq<Entry>): nat {
    if log == [] then 0
    else
      var last := log[|log| - 1];
      if last == RanBootComplete then 0
      else CountedRuns(log[..|log| - 1]) + if last.RanPostFsData? && last.counted then 1 else 0
  }

  /** Whether post-fs-data has run in the current boot, and whether it asked for safe mode. */
  predicate RanIn(log: seq<Entry>) {
    log != [] && var last := log[|log| - 1]; last != Booted && (last.RanPostFsData? || RanIn(log[..|log| - 1]))
  }

  predicate SafeIn(log: seq<Entry>) {
    log != [] && var last := log[|log| - 1];
    last != Booted && ((last.RanPostFsData? && last.safe) || SafeIn(log[..|log| - 1]))
  }

  /** Whether a stage has run in the current boot. */
  predicate StageIn(log: seq<Entry>, stage: Entry) {
    log != [] && var last := log[|log| - 1]; last != Booted && (last == stage || StageIn(log[..|log| - 1], stage))
  }

  /** An entry that may follow a log. */
  predicate MayFollow(log: seq<Entry>, e: Entry) {
    match e
    case Booted => true
    case RanPostFsData(counted, was, safe) =>
      !RanIn(log) && (counted ==> was == CountedRuns(log) && (was >= 2 ==> safe)) && (!counted ==> safe)
    case RanLateStart => RanIn(log) && !SafeIn(log)
    case RanBootComplete => RanIn(log)
  }

  ghost predicate InOrder(log: seq<Entry>) {
    forall i | 0 <= i < |log| :: MayFollow(log[..i], log[i])
  }

  lemma OneMore(log: seq<Entry>, e: Entry)
    ensures InOrder(log) && MayFollow(log, e) ==> InOrder(log + [e])
    ensures CountedRuns(log + [e])
            == if e == RanBootComplete then 0 else CountedRuns(log) + if e.RanPostFsData? && e.counted then 1 else 0
    ensures RanIn(log + [e]) <==> e != Booted && (e.RanPostFsData? || RanIn(log))
    ensures SafeIn(log + [e]) <==> e != Booted && ((e.RanPostFsData? && e.safe) || SafeIn(log))
    ensures forall stage :: StageIn(log + [e], stage) <==> e != Booted && (e == stage || StageIn(log, stage))
  {
    hide MayFollow;
    var more := log + [e];
    assert more[..|log|] == log && more[|more| - 1] == e && more[..|more| - 1] == log;
    if InOrder(log) && MayFollow(log, e) {
      forall i | 0 <= i < |more| ensures MayFollow(more[..i], more[i]) {
        assert i < |log| ==> more[..i] == log[..i] && more[i] == log[i];
      }
    }
  }

  // ----- what an ordered log promises -----

  predicate SameBoot(log: seq<Entry>, i: nat, j: nat)
    requires i < j < |log|
  {
    forall k | i < k <= j :: log[k] != Booted
  }

  /** Post-fs-data runs at most once per boot. */
  lemma AtMostOnce(log: seq<Entry>, i: nat, j: nat)
    requires InOrder(log) && i < j < |log| && log[i].RanPostFsData? && log[j].RanPostFsData?
    ensures !SameBoot(log, i, j)
  {
    assert MayFollow(log[..j], log[j]);
    if SameBoot(log, i, j) {
      StillRan(log, i, j);
    }
  }

  lemma {:induction false} StillRan(log: seq<Entry>, i: nat, j: nat)
    requires i < j <= |log| && log[i].RanPostFsData? && forall k | i < k < j :: log[k] != Booted
    ensures RanIn(log[..j]) && (log[i].safe ==> SafeIn(log[..j]))
    decreases j
  {
    assert log[..j][..j - 1] == log[..j - 1] && log[..j][j - 1] == log[j - 1];
    if i == j - 1 {
    } else {
      StillRan(log, i, j - 1);
    }
  }

  lemma {:induction false} RanSince(log: seq<Entry>) returns (i: nat)
    requires RanIn(log)
    ensures i < |log| && log[i].RanPostFsData? && forall k | i < k < |log| :: log[k] != Booted
  {
    var last := |log| - 1;
    if log[last].RanPostFsData? {
      i := last;
    } else {
      i := RanSince(log[..last]);
    }
  }

  /** Late-start runs only after post-fs-data of the same boot, and not if that asked for safe mode; boot-complete too
      waits for post-fs-data. */
  lemma OnlyAfterPostFsData(log: seq<Entry>, j: nat) returns (i: nat)
    requires InOrder(log) && j < |log| && (log[j] == RanLateStart || log[j] == RanBootComplete)
    ensures i < j && log[i].RanPostFsData? && SameBoot(log, i, j)
    ensures log[j] == RanLateStart ==> !log[i].safe
  {
    assert MayFollow(log[..j], log[j]);
    i := RanSince(log[..j]);
    StillRan(log, i, j);
  }

  /** Three counted runs without a boot-complete between them: the third is in safe mode. */
  lemma ThirdTimeIsSafe(log: seq<Entry>, i: nat, j: nat, k: nat)
    requires InOrder(log) && i < j < k < |log|
    requires forall x | x in {i, j, k} :: log[x].RanPostFsData? && log[x].counted
    requires forall x | i < x < k :: log[x] != RanBootComplete
    ensures log[k].safe
  {
    CountsUp(log, i, j);
    CountsUp(log, j, k);
    assert MayFollow(log[..k], log[k]);
  }

  /** Between two counted runs without a boot-complete the counter has grown. */
  lemma {:induction false} CountsUp(log: seq<Entry>, i: nat, j: nat)
    requires i < j <= |log| && log[i].RanPostFsData? && log[i].counted
    requires forall x | i < x < j :: log[x] != RanBootComplete
    ensures CountedRuns(log[..j]) >= CountedRuns(log[..i]) + 1
    decreases j
  {
    assert log[..j][..j - 1] == log[..j - 1] && log[..j][j - 1] == log[j - 1];
    if i == j - 1 {
    } else {
      CountsUp(log, i, j - 1);
    }
  }
}
