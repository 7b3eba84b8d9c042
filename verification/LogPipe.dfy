/** The log pipe: many writers, one reader, frames small enough to be written atomically. */
module LogPipe {
  import opened Common

  const PIPE_BUF: nat := 4096
  const META_SIZE: nat := 16
  const MAX_MSG_LEN: nat := PIPE_BUF - META_SIZE

  /** A signed 32-bit integer as stored. */
  function AsWord(x: int): nat
    requires -0x8000_0000 <= x < 0x8000_0000
  {
    if x < 0 then x + TWO_TO_THE_32 else x
  }

  function FromWord(w: nat): int
    requires w < TWO_TO_THE_32
  {
    if w >= 0x8000_0000 then w - TWO_TO_THE_32 else w
  }

  type Int32 = x: int | -0x8000_0000 <= x < 0x8000_0000

  /** What a thread asks for: to move the log to its file, or to log a message. */
  datatype Record = Setup | Message(prio: Int32, pid: Int32, tid: Int32, text: Bytes)

  function Word(x: Int32): (w: Bytes)
    ensures |w| == 4
  {
    LittleEndian32(AsWord(x))
  }

  /** `LogMeta` */
  function Meta(prio: Int32, len: Int32, pid: Int32, tid: Int32): (m: Bytes)
    ensures |m| == META_SIZE
  {
    Word(prio) + Word(len) + Word(pid) + Word(tid)
  }

  function Truncated(text: Bytes): (r: Bytes)
    ensures |r| <= MAX_MSG_LEN && r <= text
  {
    text[..if |text| < MAX_MSG_LEN then |text| else MAX_MSG_LEN]
  }

  /** The bytes of one write. */
  function Frame(r: Record): (f: Bytes)
    ensures META_SIZE <= |f| <= PIPE_BUF
  {
    match r
    case Setup => Meta(-1, 0, 0, 0)
    case Message(prio, pid, tid, text) => Meta(prio, |Truncated(text)|, pid, tid) + Truncated(text)
  }

  function Frames(rs: seq<Record>): Bytes {
    if rs == [] then [] else Frame(rs[0]) + Frames(rs[1..])
  }

  // ----- the reader -----

  datatype LogFile = Buffer(content: Bytes) | Actual(content: Bytes)

  /** The line prefix: clock, time zone and number formatting. `None` where the local time is not available. */
  type Stamp = (nat, char, Int32, Int32) -> Option<Bytes>

  function Letter(prio: Int32): Option<char> {
    match prio
    case 2 => Some('V')
    case 3 => Some('D')
    case 4 => Some('I')
    case 5 => Some('W')
    case 6 => Some('E')
    case _ => None
  }

  /** The file and how often the clock was read. */
  datatype Reader = Reader(file: LogFile, ticks: nat)

  function OpenFile(st: Reader): Reader {
    st.(file := Actual(st.file.content))
  }

  function WriteLine(stamp: Stamp, st: Reader, prio: Int32, pid: Int32, tid: Int32, msg: Bytes): Reader {
    match Letter(prio)
    case None => st
    case Some(letter) =>
      match stamp(st.ticks, letter, pid, tid)
      case None => st.(ticks := st.ticks + 1)
      case Some(prefix) => Reader(st.file.(content := st.file.content + prefix + msg), st.ticks + 1)
  }

  function WordAt(pipe: Bytes, i: nat): Int32
    requires i + 4 <= |pipe|
  {
    FromWord(FromLittleEndian32(pipe[i..i + 4]))
  }

  /** All the reader makes of the bytes it gets, until they run out. */
  function ReadAll(stamp: Stamp, st: Reader, pipe: Bytes): Reader
    decreases |pipe|
  {
    if |pipe| < META_SIZE then st
    else
      var prio, len := WordAt(pipe, 0), WordAt(pipe, 4);
      var rest := pipe[META_SIZE..];
      if prio < 0 then ReadAll(stamp, OpenFile(st), rest)
      else if len < 0 || len > MAX_MSG_LEN then ReadAll(stamp, st, rest)
      else if |rest| < len then st
      else ReadAll(stamp, WriteLine(stamp, st, prio, WordAt(pipe, 8), WordAt(pipe, 12), rest[..len]), rest[len..])
  }

  /** `writer_loop`, until the pipe runs dry. */
  method WriterLoop(stamp: Stamp, pipe: Bytes) returns (file: LogFile)
    ensures file == ReadAll(stamp, START, pipe).file
  {
    hide WordAt;
    file := Buffer([]);
    var pos, ticks := 0, 0;
    assert pipe[0..] == pipe;
    while true
      invariant pos <= |pipe| && ReadAll(stamp, START, pipe) == ReadAll(stamp, Reader(file, ticks), pipe[pos..])
      decreases |pipe| - pos
    {
      ghost var left := pipe[pos..];
      if |pipe| - pos < META_SIZE { return; }
      var meta := pipe[pos..pos + META_SIZE];
      assert meta == left[..META_SIZE] && left[META_SIZE..] == pipe[pos + META_SIZE..];
      SameWords(left, meta);
      var prio, len, pid, tid := WordAt(meta, 0), WordAt(meta, 4), WordAt(meta, 8), WordAt(meta, 12);
      pos := pos + META_SIZE;
      if prio < 0 {
        if file.Buffer? {
          file := Actual(file.content);
        }
        continue;
      }
      if len < 0 || len > MAX_MSG_LEN { continue; }
      if |pipe| - pos < len { return; }
      var msg := pipe[pos..pos + len];
      ghost var rest := pipe[pos..];
      assert msg == rest[..len] && rest[len..] == pipe[pos + len..];
      pos := pos + len;
      var letter := Letter(prio);
      if letter.None? { continue; }
      var prefix := stamp(ticks, letter.value, pid, tid);
      ticks := ticks + 1;
      if prefix.None? { continue; }
      file := file.(content := file.content + prefix.value + msg);
    }
  }

  lemma SameWords(pipe: Bytes, meta: Bytes)
    requires |pipe| >= META_SIZE && meta == pipe[..META_SIZE]
    ensures forall i | i in {0, 4, 8, 12} :: WordAt(meta, i) == WordAt(pipe, i)
  {
    assert meta[0..4] == pipe[0..4] && meta[4..8] == pipe[4..8] && meta[8..12] == pipe[8..12] && meta[12..16] == pipe[12..16];
  }

  const START := Reader(Buffer([]), 0)

  // ----- frames are read back -----

  lemma WordRoundTrip(x: Int32)
    ensures FromWord(FromLittleEndian32(Word(x))) == x
  {
    LittleEndianRoundTrip(AsWord(x));
  }

  lemma WordInside(a: Bytes, x: Int32, b: Bytes)
    ensures WordAt(a + Word(x) + b, |a|) == x
  {
    Middle(a, Word(x), b);
    WordRoundTrip(x);
  }

  lemma MetaWords(prio: Int32, len: Int32, pid: Int32, tid: Int32, rest: Bytes)
    ensures var pipe := Meta(prio, len, pid, tid) + rest;
            WordAt(pipe, 0) == prio && WordAt(pipe, 4) == len && WordAt(pipe, 8) == pid && WordAt(pipe, 12) == tid
  {
    hide Word, WordAt;
    var pipe := Meta(prio, len, pid, tid) + rest;
    WordInside([], prio, Word(len) + Word(pid) + Word(tid) + rest);
    assert pipe == [] + Word(prio) + (Word(len) + Word(pid) + Word(tid) + rest);
    WordInside(Word(prio), len, Word(pid) + Word(tid) + rest);
    assert pipe == Word(prio) + Word(len) + (Word(pid) + Word(tid) + rest);
    WordInside(Word(prio) + Word(len), pid, Word(tid) + rest);
    assert pipe == (Word(prio) + Word(len)) + Word(pid) + (Word(tid) + rest);
    WordInside(Word(prio) + Word(len) + Word(pid), tid, rest);
  }

  /** Log levels are never negative, so that only `Setup` looks like a setup record. */
  predicate Proper(r: Record) { r.Message? ==> r.prio >= 0 }

  datatype Level = Error | Warn | Info | Debug

  function LevelToPrio(level: Level): Int32 {
    match level
    case Error => 6
    case Warn => 5
    case Info => 4
    case Debug => 3
  }

  /** Every level of the loggers is one the log file supports. */
  lemma LevelsAreSupported(level: Level, pid: Int32, tid: Int32, text: Bytes)
    ensures Proper(Message(LevelToPrio(level), pid, tid, text)) && Letter(LevelToPrio(level)).Some?
  {
  }

  /** What a record does to the log. */
  function Handle(stamp: Stamp, st: Reader, r: Record): Reader {
    match r
    case Setup => OpenFile(st)
    case Message(prio, pid, tid, text) => WriteLine(stamp, st, prio, pid, tid, Truncated(text))
  }

  function HandleAll(stamp: Stamp, st: Reader, rs: seq<Record>): Reader
    decreases |rs|
  {
    if rs == [] then st else HandleAll(stamp, Handle(stamp, st, rs[0]), rs[1..])
  }

  /** The reader consumes exactly one frame per record, whatever follows. */
  lemma FrameIsRead(stamp: Stamp, st: Reader, r: Record, rest: Bytes)
    requires Proper(r)
    ensures ReadAll(stamp, st, Frame(r) + rest) == ReadAll(stamp, Handle(stamp, st, r), rest)
  {
    hide WordAt, Meta, WriteLine, Truncated;
    match r {
      case Setup =>
        MetaWords(-1, 0, 0, 0, rest);
        TakeLeft(Meta(-1, 0, 0, 0), rest);
      case Message(prio, pid, tid, text) =>
        var msg := Truncated(text);
        var meta := Meta(prio, |msg|, pid, tid);
        Associative(meta, msg, rest);
        MetaWords(prio, |msg|, pid, tid, msg + rest);
        TakeLeft(meta, msg + rest);
        TakeLeft(msg, rest);
    }
  }

  lemma {:induction false} FramesAreRead(stamp: Stamp, st: Reader, rs: seq<Record>)
    requires forall i | 0 <= i < |rs| :: Proper(rs[i])
    ensures ReadAll(stamp, st, Frames(rs)) == HandleAll(stamp, st, rs)
    decreases |rs|
  {
    hide Frame, Handle, Proper;
    if rs == [] {
    } else {
      FrameIsRead(stamp, st, rs[0], Frames(rs[1..]));
      FramesAreRead(stamp, Handle(stamp, st, rs[0]), rs[1..]);
    }
  }

  // ----- the log -----

  /** The lines of the supported messages, in order. */
  function Lines(stamp: Stamp, ticks: nat, rs: seq<Record>): Bytes
    decreases |rs|
  {
    if rs == [] then []
    else if rs[0].Setup? || Letter(rs[0].prio).None? then Lines(stamp, ticks, rs[1..])
    else
      var r := rs[0];
      match stamp(ticks, Letter(r.prio).value, r.pid, r.tid)
      case None => Lines(stamp, ticks + 1, rs[1..])
      case Some(prefix) => prefix + Truncated(r.text) + Lines(stamp, ticks + 1, rs[1..])
  }

  predicate HasSetup(rs: seq<Record>) { exists i :: 0 <= i < |rs| && rs[i].Setup? }

  /** Everything logged is in the file as soon as one setup record has come, in the buffer before; where that record
      stands, and how many follow, makes no difference. */
  lemma {:induction false} LogIs(stamp: Stamp, st: Reader, rs: seq<Record>)
    ensures var file := HandleAll(stamp, st, rs).file;
            && file.content == st.file.content + Lines(stamp, st.ticks, rs)
            && (file.Actual? <==> st.file.Actual? || HasSetup(rs))
    decreases |rs|
  {
    if rs == [] {
      assert st.file.content + [] == st.file.content;
    } else {
      hide Truncated, Letter;
      var next := Handle(stamp, st, rs[0]);
      LogIs(stamp, next, rs[1..]);
      HasSetupTail(rs);
      LogStep(stamp, st, rs, next);
    }
  }

  lemma LogStep(stamp: Stamp, st: Reader, rs: seq<Record>, next: Reader)
    requires rs != [] && next == Handle(stamp, st, rs[0])
    ensures next.file.content + Lines(stamp, next.ticks, rs[1..]) == st.file.content + Lines(stamp, st.ticks, rs)
    ensures next.file.Actual? <==> st.file.Actual? || rs[0].Setup?
  {
    hide Truncated;
    var r := rs[0];
    if r.Message? && Letter(r.prio).Some? {
      var prefix := stamp(st.ticks, Letter(r.prio).value, r.pid, r.tid);
      if prefix.Some? {
        var more := Lines(stamp, st.ticks + 1, rs[1..]);
        Associative(st.file.content + prefix.value, Truncated(r.text), more);
        Associative(st.file.content, prefix.value, Truncated(r.text) + more);
        Associative(prefix.value, Truncated(r.text), more);
      }
    }
  }

  lemma HasSetupTail(rs: seq<Record>)
    requires rs != []
    ensures HasSetup(rs) <==> rs[0].Setup? || HasSetup(rs[1..])
  {
    if HasSetup(rs[1..]) {
      var i :| 0 <= i < |rs[1..]| && rs[1..][i].Setup?;
      assert rs[i + 1].Setup?;
    }
    if HasSetup(rs) && !rs[0].Setup? {
      var i :| 0 <= i < |rs| && rs[i].Setup?;
      assert rs[1..][i - 1].Setup?;
    }
  }

  // ----- many writers -----

  /** How the kernel cuts a write into atomic pieces: not at all up to PIPE_BUF bytes. */
  ghost predicate IsKernel(cut: Bytes -> seq<Bytes>) {
    forall d :: Flatten(cut(d)) == d && (|d| <= PIPE_BUF ==> cut(d) == [d])
  }

  /** The pieces a thread hands to the kernel. */
  function Pieces(cut: Bytes -> seq<Bytes>, rs: seq<Record>): seq<Bytes> {
    if rs == [] then [] else cut(Frame(rs[0])) + Pieces(cut, rs[1..])
  }

  /** `order` names, piece by piece, the thread that goes next. */
  predicate Schedules<T>(queues: seq<seq<T>>, order: seq<nat>)
    decreases |order|
  {
    order == [] || (order[0] < |queues| && queues[order[0]] != []
                    && Schedules(queues[order[0] := queues[order[0]][1..]], order[1..]))
  }

  function Merge<T>(queues: seq<seq<T>>, order: seq<nat>): seq<T>
    requires Schedules(queues, order)
    ensures |Merge(queues, order)| == |order|
    decreases |order|
  {
    if order == [] then []
    else [queues[order[0]][0]] + Merge(queues[order[0] := queues[order[0]][1..]], order[1..])
  }

  function FrameList(rs: seq<Record>): (r: seq<Bytes>)
    ensures |r| == |rs| && forall i | 0 <= i < |r| :: r[i] == Frame(rs[i])
  {
    seq(|rs|, i requires 0 <= i < |rs| => Frame(rs[i]))
  }

  function FrameQueues(writers: seq<seq<Record>>): (r: seq<seq<Bytes>>)
    ensures |r| == |writers| && forall i | 0 <= i < |r| :: r[i] == FrameList(writers[i])
  {
    seq(|writers|, i requires 0 <= i < |writers| => FrameList(writers[i]))
  }

  function PieceQueues(cut: Bytes -> seq<Bytes>, writers: seq<seq<Record>>): (r: seq<seq<Bytes>>)
    ensures |r| == |writers| && forall i | 0 <= i < |r| :: r[i] == Pieces(cut, writers[i])
  {
    seq(|writers|, i requires 0 <= i < |writers| => Pieces(cut, writers[i]))
  }

  /** Frames are written whole. */
  lemma {:induction false} PiecesAreFrames(cut: Bytes -> seq<Bytes>, rs: seq<Record>)
    requires IsKernel(cut)
    ensures Pieces(cut, rs) == FrameList(rs)
  {
    hide Frame;
    if rs == [] {
    } else {
      PiecesAreFrames(cut, rs[1..]);
      assert cut(Frame(rs[0])) == [Frame(rs[0])];
    }
  }

  lemma QueueTail(writers: seq<seq<Record>>, w: nat)
    requires w < |writers| && writers[w] != []
    ensures FrameQueues(writers)[w := FrameQueues(writers)[w][1..]] == FrameQueues(writers[w := writers[w][1..]])
  {
    hide Frame;
    assert FrameList(writers[w])[1..] == FrameList(writers[w][1..]);
  }

  /** Interleaving the frames is interleaving the records. */
  lemma {:induction false} MergeFrames(writers: seq<seq<Record>>, order: seq<nat>)
    requires Schedules(FrameQueues(writers), order)
    ensures Schedules(writers, order) && Merge(FrameQueues(writers), order) == FrameList(Merge(writers, order))
    decreases |order|
  {
    hide Frame;
    if order == [] {
    } else {
      var w := order[0];
      assert FrameQueues(writers)[w] == FrameList(writers[w]);
      QueueTail(writers, w);
      MergeFrames(writers[w := writers[w][1..]], order[1..]);
    }
  }

  lemma {:induction false} FlattenFrames(rs: seq<Record>)
    ensures Flatten(FrameList(rs)) == Frames(rs)
  {
    hide Frame;
    if rs == [] {
    } else {
      FlattenFrames(rs[1..]);
      assert FrameList(rs)[1..] == FrameList(rs[1..]);
    }
  }

  predicate AllProper(rs: seq<Record>) { forall i | 0 <= i < |rs| :: Proper(rs[i]) }

  lemma {:induction false} MergeProper(writers: seq<seq<Record>>, order: seq<nat>)
    requires Schedules(writers, order) && forall i | 0 <= i < |writers| :: AllProper(writers[i])
    ensures AllProper(Merge(writers, order))
    decreases |order|
  {
    if order == [] {
    } else {
      var w := order[0];
      var next := writers[w := writers[w][1..]];
      forall i | 0 <= i < |next| ensures AllProper(next[i]) { assert AllProper(writers[i]); }
      MergeProper(next, order[1..]);
      assert AllProper(writers[w]);
    }
  }

  /** For every kernel, every set of writers and every interleaving of their atomic writes, the log is that of the
      records in pipe order. */
  lemma EveryInterleaving(stamp: Stamp, cut: Bytes -> seq<Bytes>, writers: seq<seq<Record>>, order: seq<nat>)
    requires IsKernel(cut) && Schedules(PieceQueues(cut, writers), order)
    requires forall i | 0 <= i < |writers| :: AllProper(writers[i])
    ensures Schedules(writers, order)
    ensures var log := Merge(writers, order);
            var pipe := Flatten(Merge(PieceQueues(cut, writers), order));
            ReadAll(stamp, START, pipe).file
            == if HasSetup(log) then Actual(Lines(stamp, 0, log)) else Buffer(Lines(stamp, 0, log))
  {
    hide Frame, Lines, ReadAll, HandleAll, Merge, Schedules, HasSetup;
    forall i | 0 <= i < |writers| ensures Pieces(cut, writers[i]) == FrameList(writers[i]) {
      PiecesAreFrames(cut, writers[i]);
    }
    assert PieceQueues(cut, writers) == FrameQueues(writers);
    MergeFrames(writers, order);
    var log := Merge(writers, order);
    FlattenFrames(log);
    MergeProper(writers, order);
    FramesAreRead(stamp, START, log);
    LogIs(stamp, START, log);
    assert [] + Lines(stamp, 0, log) == Lines(stamp, 0, log);
  }

  /** The entries of one thread among the merged ones. */
  function Only<T>(order: seq<nat>, merged: seq<T>, w: nat): seq<T>
    requires |order| == |merged|
  {
    if order == [] then []
    else if order[0] == w then [merged[0]] + Only(order[1..], merged[1..], w)
    else Only(order[1..], merged[1..], w)
  }

  /** Every thread's messages appear in the order it logged them. */
  lemma {:induction false} ThreadOrderKept<T>(queues: seq<seq<T>>, order: seq<nat>, w: nat)
    requires Schedules(queues, order) && w < |queues|
    ensures Only(order, Merge(queues, order), w) <= queues[w]
    decreases |order|
  {
    if order == [] {
    } else {
      var o := order[0];
      ThreadOrderKept(queues[o := queues[o][1..]], order[1..], w);
      assert Merge(queues, order)[1..] == Merge(queues[o := queues[o][1..]], order[1..]);
      if o == w {
        assert queues[w] == [queues[w][0]] + queues[w][1..];
      }
    }
  }

  lemma {:induction false} FileStaysOpen(stamp: Stamp, st: Reader, pipe: Bytes)
    requires st.file.Actual?
    ensures ReadAll(stamp, st, pipe).file.Actual?
    decreases |pipe|
  {
    hide WordAt;
    if |pipe| < META_SIZE {
    } else {
      var prio, len := WordAt(pipe, 0), WordAt(pipe, 4);
      var rest := pipe[META_SIZE..];
      if prio < 0 || len < 0 || len > MAX_MSG_LEN {
        FileStaysOpen(stamp, if prio < 0 then OpenFile(st) else st, rest);
      } else if |rest| >= len {
        FileStaysOpen(stamp, WriteLine(stamp, st, prio, WordAt(pipe, 8), WordAt(pipe, 12), rest[..len]), rest[len..]);
      }
    }
  }

  /** A record is read as what it was written for exactly if its priority is not negative. */
  lemma FramingIff(stamp: Stamp, r: Record)
    ensures ReadAll(stamp, START, Frame(r)) == Handle(stamp, START, r) <==> Proper(r)
  {
    hide WordAt, Meta, Truncated;
    if Proper(r) {
      FrameIsRead(stamp, START, r, []);
      assert Frame(r) + [] == Frame(r);
    } else {
      var msg := Truncated(r.text);
      var meta := Meta(r.prio, |msg|, r.pid, r.tid);
      MetaWords(r.prio, |msg|, r.pid, r.tid, msg);
      TakeLeft(meta, msg);
      FileStaysOpen(stamp, OpenFile(START), msg);
    }
  }
}
