/**
 * Reading a file through four shared buffers (source/io/fs/File.cpp). The state and what each
 * operation does to it come first; then what every run of them keeps; then the operations written
 * on the fields of the object.
 *
 * A buffer is lent out by reference count: the request holds one reference while it reads into the
 * buffer and calls back, and users hold theirs for as long as they like. The last one to let go
 * frees the buffer, and that starts the next read. Callbacks run inside the completion of a read,
 * so a completion is two steps, with what the user does in the callback in between.
 */
module FileReader {
  import opened Words

  const READ_BUF_SIZE: nat := 4096
  const READ_BUFS_NUM: nat := 4

  /** `given` is what the users of the buffer were handed. */
  datatype Buffer = Buffer(isFree: bool, inRequest: bool, users: nat, content: seq<byte>, given: seq<byte>)

  const UNUSED := Buffer(true, false, 0, [], [])

  /** Between two events, or inside a callback that the completion of buffer `i` is making. */
  datatype Phase = Idle | InRead(i: nat, size: nat) | InEnd(i: nat)

  /** The buffers, those that reads have been started into, and how often the loop is kept from ending. */
  datatype Pool = Pool(bufs: seq<Buffer>, inflight: seq<nat>, blocks: int, phase: Phase)

  datatype State = Closed | Opened | Closing

  datatype Status = Status(
    state: State,
    readInProgress: bool,
    doneRead: bool,
    started: bool,              // `read` has been called since the file was opened
    stalled: bool,              // the file was opened with the flag of an old read still set
    removalScheduled: bool,
    needRescheduleRemove: bool,
    closeThenRemove: bool,      // the close under way was asked for by a removal
    removals: nat,              // how often the file has been handed over to be deleted
    overflow: bool              // a call has been made that never returns
  )

  /** What the user is called with. */
  datatype Call = Chunk(offset: nat, data: seq<byte>) | End | ReadError | NotOpen

  /** What is in the file, how far it has been read, and the calls made since it was opened. */
  datatype Session = Session(file: seq<byte>, pos: nat, currentOffset: nat, calls: seq<Call>)

  datatype Reader = Reader(pool: Pool, status: Status, session: Session)

  const FRESH := Reader(
    Pool([UNUSED, UNUSED, UNUSED, UNUSED], [], 0, Idle),
    Status(Closed, false, false, false, false, false, false, false, 0, false),
    Session([], 0, 0, []))

  // ---------- the buffers ----------

  predicate InUse(bufs: seq<Buffer>) { exists i :: 0 <= i < |bufs| && !bufs[i].isFree }

  predicate AllBusy(bufs: seq<Buffer>) { forall i :: 0 <= i < |bufs| ==> !bufs[i].isFree }

  /** The least free index at or above `from`, or the number of buffers. */
  function FirstFree(bufs: seq<Buffer>, from: nat): (i: nat)
    requires from <= |bufs|
    ensures from <= i <= |bufs| && (i < |bufs| ==> bufs[i].isFree) && forall j :: from <= j < i ==> !bufs[j].isFree
    decreases |bufs| - from
  {
    if from == |bufs| || bufs[from].isFree then from else FirstFree(bufs, from + 1)
  }

  function Take(p: Pool, i: nat): Pool
    requires i < |p.bufs|
  {
    p.(bufs := p.bufs[i := p.bufs[i].(isFree := false, inRequest := true)],
       inflight := p.inflight + [i], blocks := p.blocks + 1)
  }

  function Free(p: Pool, i: nat): Pool
    requires i < |p.bufs|
  {
    p.(bufs := p.bufs[i := p.bufs[i].(isFree := true)], blocks := p.blocks - 1)
  }

  function LetGo(p: Pool, i: nat): Pool
    requires i < |p.bufs|
  {
    p.(bufs := p.bufs[i := p.bufs[i].(inRequest := false)])
  }

  function SetUsers(p: Pool, i: nat, users: nat): Pool
    requires i < |p.bufs|
  {
    p.(bufs := p.bufs[i := p.bufs[i].(users := users)])
  }

  function Write(p: Pool, i: nat, content: seq<byte>): Pool
    requires i < |p.bufs|
  {
    p.(bufs := p.bufs[i := p.bufs[i].(content := content)])
  }

  function HandOver(p: Pool, i: nat, data: seq<byte>): Pool
    requires i < |p.bufs|
  {
    p.(bufs := p.bufs[i := p.bufs[i].(content := data, given := data)], inflight := [], phase := InRead(i, |data|))
  }

  // ---------- the operations ----------

  predicate IsOpen(s: Status) { s.state != Closed }

  predicate MayRead(s: Status) { IsOpen(s) && !s.removalScheduled && s.state != Closing && !s.readInProgress }

  function ScheduleRead(s: Reader): Reader {
    if !MayRead(s.status) || AllBusy(s.pool.bufs) then s
    else s.(pool := Take(s.pool, FirstFree(s.pool.bufs, 0)), status := s.status.(readInProgress := true))
  }

  /** A removal asked for: carried out by the close, left to the last buffer, or done. */
  function RemovalStatus(s: Status, inUse: bool): Status {
    var s := s.(removalScheduled := true);
    if s.state == Closing then (if inUse then s.(needRescheduleRemove := true) else s.(overflow := true))
    else if s.state == Opened then s.(state := Closing, closeThenRemove := true)
    else if inUse then s.(needRescheduleRemove := true)
    else s.(removals := s.removals + 1)
  }

  function ScheduleRemoval(s: Reader): Reader { s.(status := RemovalStatus(s.status, InUse(s.pool.bufs))) }

  /** The last reference to buffer `i` has gone. */
  function BufferFreed(s: Reader, i: nat): Reader
    requires i < |s.pool.bufs|
  {
    var s := s.(pool := Free(s.pool, i));
    if s.status.needRescheduleRemove then (if InUse(s.pool.bufs) then s else ScheduleRemoval(s))
    else if s.status.doneRead then s
    else ScheduleRead(s)
  }

  function DropRequest(s: Reader, i: nat): Reader
    requires i < |s.pool.bufs|
  {
    var s := s.(pool := LetGo(s.pool, i));
    if s.pool.bufs[i].users == 0 then BufferFreed(s, i) else s
  }

  predicate MayCopy(p: Pool, i: nat) {
    i < |p.bufs| && (p.bufs[i].users > 0 || (p.phase.InRead? && p.phase.i == i))
  }

  function Copy(s: Reader, i: nat): Reader
    requires i < |s.pool.bufs|
  {
    s.(pool := SetUsers(s.pool, i, s.pool.bufs[i].users + 1))
  }

  function Release(s: Reader, i: nat): Reader
    requires i < |s.pool.bufs| && s.pool.bufs[i].users > 0
  {
    var s := s.(pool := SetUsers(s.pool, i, s.pool.bufs[i].users - 1));
    if s.pool.bufs[i].users == 0 && !s.pool.bufs[i].inRequest then BufferFreed(s, i) else s
  }

  function Called(s: Reader, c: Call): Reader { s.(session := s.session.(calls := s.session.calls + [c])) }

  function Read(s: Reader): Reader {
    if !IsOpen(s.status) then Called(s, NotOpen)
    else ScheduleRead(s.(status := s.status.(doneRead := false, started := true)))
  }

  function Close(s: Reader): Reader {
    if s.status.state == Opened then s.(status := s.status.(state := Closing, closeThenRemove := false)) else s
  }

  function OnClose(s: Reader): Reader {
    var s := s.(status := s.status.(state := Closed));
    if !s.status.closeThenRemove then s
    else if InUse(s.pool.bufs) then s.(status := s.status.(needRescheduleRemove := true))
    else ScheduleRemoval(s)
  }

  /** What the system may answer to a read at the current position. */
  predicate PossibleResult(s: Session, result: int) {
    result <= READ_BUF_SIZE && s.pos <= |s.file| && s.pos + result <= |s.file| && (result == 0 ==> s.pos == |s.file|)
  }

  /** A read into buffer `i` of an open file has completed: all up to a callback that has something to do after it. */
  function OpenResult(s: Reader, i: nat, result: int): Reader
    requires i < |s.pool.bufs| && PossibleResult(s.session, result)
  {
    if result > 0 then
      var data := s.session.file[s.session.pos..s.session.pos + result];
      Reader(HandOver(s.pool, i, data), s.status.(readInProgress := false),
             s.session.(pos := s.session.pos + result,
                        calls := s.session.calls + [Chunk(s.session.currentOffset, data)]))
    else
      var over := s.(status := s.status.(readInProgress := false, doneRead := true));
      if result < 0 then Called(DropRequest(over, i), ReadError)
      else Called(over.(pool := over.pool.(phase := InEnd(i))), End)
  }

  /** A read has completed. */
  function OnRead(s: Reader, result: int): Reader
    requires |s.pool.inflight| == 1 && s.pool.inflight[0] < |s.pool.bufs| && PossibleResult(s.session, result)
  {
    var i := s.pool.inflight[0];
    var taken := s.(pool := s.pool.(inflight := []));
    if IsOpen(s.status) then OpenResult(taken, i, result) else Called(DropRequest(taken, i), NotOpen)
  }

  /** The callback has returned. */
  function AfterCallback(s: Reader): Reader
    requires s.pool.phase.Idle? || s.pool.phase.i < |s.pool.bufs|
  {
    var back := s.(pool := s.pool.(phase := Idle));
    match s.pool.phase
    case Idle => s
    case InEnd(i) => DropRequest(back, i)
    case InRead(i, size) =>
      DropRequest(ScheduleRead(back.(session := s.session.(currentOffset := s.session.currentOffset + size))), i)
  }

  /** The file has been opened; `file` is what is in it. */
  function OnOpen(s: Reader, file: seq<byte>): Reader {
    s.(status := s.status.(state := Opened, started := false, stalled := s.status.readInProgress),
       session := Session(file, 0, 0, []))
  }

  // ---------- runs ----------

  datatype Event =
    | Opening(file: seq<byte>)
    | Reading
    | Copying(i: nat)
    | Releasing(i: nat)
    | ClosingFile
    | Removing
    | Scribbling(content: seq<byte>)   // the system writes into the buffer it reads into
    | ReadDone(result: int)
    | Returning
    | CloseDone

  /** What can happen; completions come from the loop, so not inside a callback. */
  predicate Enabled(s: Reader, e: Event) {
    !s.status.overflow &&
    match e
    case Opening(_) => s.status.state == Closed && s.pool.inflight == [] && !s.status.removalScheduled
    case Reading => true
    case Copying(i) => MayCopy(s.pool, i)
    case Releasing(i) => i < |s.pool.bufs| && s.pool.bufs[i].users > 0
    case ClosingFile => true
    case Removing => true
    case Scribbling(_) => s.pool.inflight != [] && s.pool.inflight[0] < |s.pool.bufs|
    case ReadDone(result) =>
      && s.pool.phase == Idle && |s.pool.inflight| == 1 && s.pool.inflight[0] < |s.pool.bufs|
      && PossibleResult(s.session, result)
    case Returning => s.pool.phase != Idle && s.pool.phase.i < |s.pool.bufs|
    case CloseDone => s.pool.phase == Idle && s.status.state == Closing
  }

  function Next(s: Reader, e: Event): Reader
    requires Enabled(s, e)
  {
    match e
    case Opening(file) => OnOpen(s, file)
    case Reading => Read(s)
    case Copying(i) => Copy(s, i)
    case Releasing(i) => Release(s, i)
    case ClosingFile => Close(s)
    case Removing => ScheduleRemoval(s)
    case Scribbling(content) => s.(pool := Write(s.pool, s.pool.inflight[0], content))
    case ReadDone(result) => OnRead(s, result)
    case Returning => AfterCallback(s)
    case CloseDone => OnClose(s)
  }

  ghost predicate IsRun(states: seq<Reader>, events: seq<Event>) {
    && |states| == |events| + 1 && states[0] == FRESH
    && forall k :: 0 <= k < |events| ==> Enabled(states[k], events[k]) && states[k + 1] == Next(states[k], events[k])
  }

  // ---------- what every run keeps ----------

  function BusyCount(bufs: seq<Buffer>): nat {
    if bufs == [] then 0 else (if bufs[|bufs| - 1].isFree then 0 else 1) + BusyCount(bufs[..|bufs| - 1])
  }

  predicate InCallbackOf(p: Pool, i: nat) { p.phase != Idle && p.phase.i == i }

  /** Who holds the buffers; `loose` is one whose request has finished but not let go yet. */
  ghost predicate LentBut(p: Pool, loose: int) {
    && |p.bufs| == READ_BUFS_NUM && |p.inflight| <= 1
    && (p.inflight != [] ==>
          p.inflight[0] < READ_BUFS_NUM && !InCallbackOf(p, p.inflight[0]) && p.bufs[p.inflight[0]].users == 0)
    && (forall i :: 0 <= i < READ_BUFS_NUM && i != loose ==>
          (p.bufs[i].inRequest <==> p.inflight == [i] || InCallbackOf(p, i)))
    && (forall i :: 0 <= i < READ_BUFS_NUM && i != loose ==>
          (p.bufs[i].isFree <==> !p.bufs[i].inRequest && p.bufs[i].users == 0))
    && (0 <= loose < READ_BUFS_NUM ==> !p.bufs[loose].isFree && p.inflight != [loose] && !InCallbackOf(p, loose))
    && (p.phase != Idle ==> p.phase.i < READ_BUFS_NUM)
    && p.blocks == BusyCount(p.bufs)
    && (forall i :: 0 <= i < READ_BUFS_NUM && MayCopy(p, i) ==> p.bufs[i].content == p.bufs[i].given)
  }

  ghost predicate Lent(p: Pool) { LentBut(p, -1) }

  /** The flags against what is really under way. */
  ghost predicate Flags(s: Reader) {
    && (s.pool.inflight != [] ==> s.status.readInProgress)
    && (IsOpen(s.status) && s.status.readInProgress ==> s.pool.inflight != [] || s.status.stalled)
    && (IsOpen(s.status) && s.status.stalled ==>
          s.status.readInProgress && s.pool.inflight == [] && s.session.calls == [])
    && (s.pool.phase != Idle ==> IsOpen(s.status))
  }

  /** A reader that could go on reading is reading, or has no buffer left. */
  ghost predicate KeepsReading(s: Reader) {
    MayRead(s.status) && s.status.started && !s.status.doneRead && !s.pool.phase.InRead? ==> AllBusy(s.pool.bufs)
  }

  /** A removal asked for is never forgotten, and happens only once nothing can touch the file any more. */
  ghost predicate RemovalOk(s: Status, inUse: bool) {
    && (s.needRescheduleRemove || (s.state == Closing && s.closeThenRemove) ==> s.removalScheduled)
    && (s.removals > 0 ==> s.state == Closed && !inUse && s.removalScheduled)
    && (s.removalScheduled && !s.overflow ==>
          s.removals > 0 || (s.needRescheduleRemove && inUse) || (s.state == Closing && s.closeThenRemove))
  }

  /** What the chunks handed over hold together. */
  function Data(calls: seq<Call>): seq<byte> {
    if calls == [] then [] else
      var before := Data(calls[..|calls| - 1]);
      if calls[|calls| - 1].Chunk? then before + calls[|calls| - 1].data else before
  }

  /** A chunk is the next stretch of the file and says where it starts; the end is called at the end. */
  ghost predicate CallOk(file: seq<byte>, calls: seq<Call>, k: nat)
    requires k < |calls|
  {
    && (calls[k].Chunk? ==>
          calls[k].offset == |Data(calls[..k])| && calls[k].data != [] && Data(calls[..k]) + calls[k].data <= file)
    && (calls[k].End? ==> Data(calls[..k]) == file)
  }

  ghost predicate InOrder(file: seq<byte>, calls: seq<Call>) {
    forall k :: 0 <= k < |calls| ==> CallOk(file, calls, k)
  }

  /** `size` is that of the chunk being handed over. */
  ghost predicate SessionOk(s: Session, size: nat, isOpen: bool) {
    && s.pos <= |s.file| && InOrder(s.file, s.calls) && Data(s.calls) == s.file[..s.pos]
    && (isOpen ==> s.pos == s.currentOffset + size)
  }

  function PendingSize(p: Phase): nat { if p.InRead? then p.size else 0 }

  ghost predicate InvBut(s: Reader, loose: int) {
    && LentBut(s.pool, loose) && Flags(s) && RemovalOk(s.status, InUse(s.pool.bufs))
    && SessionOk(s.session, PendingSize(s.pool.phase), IsOpen(s.status))
  }

  ghost predicate Inv(s: Reader) { InvBut(s, -1) && KeepsReading(s) }

  // ---------- the buffers, step by step ----------

  lemma {:induction false} Counted(bufs: seq<Buffer>, i: nat, b: Buffer)
    requires i < |bufs|
    ensures BusyCount(bufs[i := b]) == BusyCount(bufs) + (if b.isFree then 0 else 1) - (if bufs[i].isFree then 0 else 1)
  {
    var n := |bufs| - 1;
    if i < n {
      assert bufs[i := b][..n] == bufs[..n][i := b];
      Counted(bufs[..n], i, b);
    } else {
      assert bufs[i := b][..n] == bufs[..n];
    }
  }

  /** Whether buffers are in use changes only with the flag. */
  lemma SameUse(bufs: seq<Buffer>, i: nat, b: Buffer)
    requires i < |bufs| && bufs[i].isFree == b.isFree
    ensures var t := bufs[i := b];
      (InUse(t) <==> InUse(bufs)) && (AllBusy(t) <==> AllBusy(bufs)) && BusyCount(t) == BusyCount(bufs)
  {
    var t := bufs[i := b];
    assert forall j :: 0 <= j < |bufs| ==> t[j].isFree == bufs[j].isFree;
    Counted(bufs, i, b);
  }

  lemma Taken(p: Pool, loose: int)
    requires LentBut(p, loose) && p.inflight == [] && !AllBusy(p.bufs)
    ensures var t := Take(p, FirstFree(p.bufs, 0));
      LentBut(t, loose) && InUse(t.bufs) && t.inflight != [] && t.phase == p.phase
  {
    hide LentBut, InUse;
    assert |p.bufs| == READ_BUFS_NUM by { FourBuffers(p, loose); }
    TakenAt(p, loose, FirstFree(p.bufs, 0));
  }

  lemma TakenAt(p: Pool, loose: int, i: nat)
    requires LentBut(p, loose) && p.inflight == [] && i < |p.bufs| && p.bufs[i].isFree
    ensures LentBut(Take(p, i), loose) && InUse(Take(p, i).bufs)
  {
    hide BusyCount;
    var t := Take(p, i);
    Counted(p.bufs, i, p.bufs[i].(isFree := false, inRequest := true));
    assert !t.bufs[i].isFree && i != loose && t.inflight == [i] && !InCallbackOf(p, i);
    forall j | 0 <= j < READ_BUFS_NUM && j != i
      ensures t.bufs[j] == p.bufs[j] && InCallbackOf(t, j) == InCallbackOf(p, j) && MayCopy(t, j) == MayCopy(p, j)
    {
    }
  }

  lemma Freed(p: Pool, i: nat)
    requires LentBut(p, i) && i < READ_BUFS_NUM && !p.bufs[i].inRequest && p.bufs[i].users == 0
    ensures Lent(Free(p, i)) && InUse(p.bufs)
  {
    hide BusyCount;
    Counted(p.bufs, i, p.bufs[i].(isFree := true));
  }

  /** After the request has let go, the buffer is as good as any other, unless nobody else has it. */
  lemma LetGone(p: Pool, i: nat)
    requires LentBut(p, i) && i < READ_BUFS_NUM
    ensures LentBut(LetGo(p, i), i) && (p.bufs[i].users > 0 ==> Lent(LetGo(p, i)))
    ensures (InUse(LetGo(p, i).bufs) <==> InUse(p.bufs)) && (AllBusy(LetGo(p, i).bufs) <==> AllBusy(p.bufs))
  {
    hide BusyCount, InUse, AllBusy;
    SameUse(p.bufs, i, p.bufs[i].(inRequest := false));
  }

  lemma UsersChanged(p: Pool, i: nat, users: nat)
    requires Lent(p) && MayCopy(p, i)
    ensures var t := SetUsers(p, i, users);
      && (InUse(t.bufs) <==> InUse(p.bufs)) && (AllBusy(t.bufs) <==> AllBusy(p.bufs))
      && (if users == 0 && !p.bufs[i].inRequest then LentBut(t, i) else Lent(t))
  {
    hide BusyCount, InUse, AllBusy;
    SameUse(p.bufs, i, p.bufs[i].(users := users));
  }

  lemma Written(p: Pool, content: seq<byte>)
    requires Lent(p) && p.inflight != [] && p.inflight[0] < |p.bufs|
    ensures var t := Write(p, p.inflight[0], content);
      Lent(t) && (InUse(t.bufs) <==> InUse(p.bufs)) && (AllBusy(t.bufs) <==> AllBusy(p.bufs))
  {
    hide BusyCount, InUse, AllBusy;
    SameUse(p.bufs, p.inflight[0], p.bufs[p.inflight[0]].(content := content));
  }

  lemma HandedOver(p: Pool, i: nat, data: seq<byte>)
    requires Lent(p) && p.inflight == [i] && i < |p.bufs| && p.phase == Idle
    ensures var t := HandOver(p, i, data); Lent(t) && (InUse(t.bufs) <==> InUse(p.bufs))
  {
    hide BusyCount, InUse, AllBusy;
    SameUse(p.bufs, i, p.bufs[i].(content := data, given := data));
  }

  /** The completion of a read takes the buffer out of the requests under way. */
  lemma Completed(p: Pool, i: nat)
    requires Lent(p) && p.inflight == [i]
    ensures LentBut(p.(inflight := []), i)
    ensures p.phase == Idle ==> Lent(p.(inflight := [], phase := InEnd(i)))
  {
    hide BusyCount;
  }

  lemma CallbackDone(p: Pool)
    requires Lent(p) && p.phase != Idle
    ensures LentBut(p.(phase := Idle), p.phase.i)
  {
    hide BusyCount;
  }

  // ---------- the operations, one by one ----------

  lemma CallAdded(file: seq<byte>, calls: seq<Call>, c: Call)
    requires InOrder(file, calls)
    ensures Data(calls + [c]) == Data(calls) + (if c.Chunk? then c.data else [])
    ensures InOrder(file, calls + [c]) <==> CallOk(file, calls + [c], |calls|)
    ensures (calls + [c])[..|calls|] == calls
  {
    var more := calls + [c];
    assert more[..|calls|] == calls;
    forall k | 0 <= k < |calls| ensures CallOk(file, more, k) {
      assert CallOk(file, calls, k) && more[..k] == calls[..k];
    }
  }

  lemma ScheduleReadKeeps(s: Reader, loose: int)
    requires InvBut(s, loose)
    ensures InvBut(ScheduleRead(s), loose) && KeepsReading(ScheduleRead(s))
  {
    hide LentBut, InUse, AllBusy, SessionOk, Take;
    if MayRead(s.status) && !AllBusy(s.pool.bufs) { Taken(s.pool, loose); }
  }

  lemma ScheduleRemovalKeeps(s: Reader)
    requires Lent(s.pool) && Flags(s) && SessionOk(s.session, PendingSize(s.pool.phase), IsOpen(s.status))
    requires s.status.removals > 0 ==> s.status.state == Closed && !InUse(s.pool.bufs)
    ensures Inv(ScheduleRemoval(s))
  {
    hide LentBut, InUse, AllBusy, SessionOk;
  }

  lemma BufferFreedKeeps(s: Reader, i: nat)
    requires InvBut(s, i) && i < READ_BUFS_NUM && !s.pool.bufs[i].inRequest && s.pool.bufs[i].users == 0
    ensures Inv(BufferFreed(s, i))
  {
    hide LentBut, InUse, AllBusy, SessionOk, ScheduleRead, ScheduleRemoval;
    FourBuffers(s.pool, i);
    Freed(s.pool, i);
    var freed := s.(pool := Free(s.pool, i));
    if s.status.needRescheduleRemove {
      if !InUse(freed.pool.bufs) { ScheduleRemovalKeeps(freed); }
    } else if !s.status.doneRead {
      ScheduleReadKeeps(freed, -1);
    }
  }

  lemma DropRequestKeeps(s: Reader, i: nat)
    requires InvBut(s, i) && i < READ_BUFS_NUM && KeepsReading(s)
    ensures Inv(DropRequest(s, i))
  {
    hide LentBut, InUse, AllBusy, SessionOk, BufferFreed;
    assert |s.pool.bufs| == READ_BUFS_NUM by { FourBuffers(s.pool, i); }
    LetGone(s.pool, i);
    if s.pool.bufs[i].users == 0 { BufferFreedKeeps(s.(pool := LetGo(s.pool, i)), i); }
  }

  lemma FourBuffers(p: Pool, loose: int)
    requires LentBut(p, loose)
    ensures |p.bufs| == READ_BUFS_NUM
    ensures p.phase != Idle ==> p.phase.i < READ_BUFS_NUM
    ensures p.inflight != [] ==> p.inflight == [p.inflight[0]] && p.inflight[0] < READ_BUFS_NUM
  {
  }

  lemma ReleaseKeeps(s: Reader, i: nat)
    requires Inv(s) && i < |s.pool.bufs| && s.pool.bufs[i].users > 0
    ensures Inv(Release(s, i))
  {
    hide LentBut, InUse, AllBusy, SessionOk, BufferFreed;
    FourBuffers(s.pool, -1);
    UsersChanged(s.pool, i, s.pool.bufs[i].users - 1);
    var released := s.(pool := SetUsers(s.pool, i, s.pool.bufs[i].users - 1));
    if s.pool.bufs[i].users == 1 && !s.pool.bufs[i].inRequest { BufferFreedKeeps(released, i); }
  }

  lemma CopyKeeps(s: Reader, i: nat)
    requires Inv(s) && MayCopy(s.pool, i)
    ensures Inv(Copy(s, i))
  {
    hide LentBut, InUse, AllBusy, SessionOk;
    UsersChanged(s.pool, i, s.pool.bufs[i].users + 1);
  }

  /** The user is called with something that is neither a chunk nor the end. */
  lemma ErrorReported(s: Reader, c: Call)
    requires Inv(s) && (c.ReadError? || c.NotOpen?) && (IsOpen(s.status) ==> !s.status.stalled)
    ensures Inv(Called(s, c))
  {
    hide LentBut, InUse, AllBusy, RemovalOk;
    CallAdded(s.session.file, s.session.calls, c);
  }

  lemma ReadKeeps(s: Reader)
    requires Inv(s)
    ensures Inv(Read(s))
  {
    hide LentBut, InUse, AllBusy, SessionOk, ScheduleRead, Called;
    if IsOpen(s.status) {
      ScheduleReadKeeps(s.(status := s.status.(doneRead := false, started := true)), -1);
    } else {
      ErrorReported(s, NotOpen);
    }
  }

  lemma CloseKeeps(s: Reader)
    requires Inv(s)
    ensures Inv(Close(s))
  {
    hide LentBut, InUse, AllBusy, SessionOk;
  }

  lemma OpeningKeeps(s: Reader, file: seq<byte>)
    requires Inv(s) && s.status.state == Closed && s.pool.inflight == [] && !s.status.removalScheduled
    ensures Inv(OnOpen(s, file))
  {
    hide LentBut, InUse, AllBusy;
  }

  lemma OnCloseKeeps(s: Reader)
    requires Inv(s) && s.status.state == Closing && s.pool.phase == Idle
    ensures Inv(OnClose(s))
  {
    hide LentBut, InUse, AllBusy, InOrder, Data, ScheduleRemoval;
    if s.status.closeThenRemove && !InUse(s.pool.bufs) {
      ScheduleRemovalKeeps(s.(status := s.status.(state := Closed)));
    }
  }

  /** The end: everything has been handed over. */
  lemma EndKeeps(s: Reader)
    requires Inv(s) && Enabled(s, ReadDone(0)) && IsOpen(s.status)
    ensures Inv(OnRead(s, 0))
  {
    hide LentBut, InUse, AllBusy;
    FourBuffers(s.pool, -1);
    Completed(s.pool, s.pool.inflight[0]);
    CallAdded(s.session.file, s.session.calls, End);
  }

  lemma ChunkCalled(s: Session, n: nat)
    requires SessionOk(s, 0, true) && 0 < n && s.pos + n <= |s.file|
    ensures var data := s.file[s.pos..s.pos + n];
      SessionOk(s.(pos := s.pos + n, calls := s.calls + [Chunk(s.currentOffset, data)]), n, true)
  {
    var data := s.file[s.pos..s.pos + n];
    assert s.file[..s.pos] + data == s.file[..s.pos + n];
    CallAdded(s.file, s.calls, Chunk(s.currentOffset, data));
  }

  lemma ChunkKeeps(s: Reader, n: int)
    requires Inv(s) && Enabled(s, ReadDone(n)) && IsOpen(s.status) && 0 < n
    ensures Inv(OnRead(s, n))
  {
    hide LentBut, InUse, AllBusy, SessionOk, HandOver;
    FourBuffers(s.pool, -1);
    ChunkCalled(s.session, n);
    var data := s.session.file[s.session.pos..s.session.pos + n];
    HandedOver(s.pool, s.pool.inflight[0], data);
    HandOverFrame(s.pool, s.pool.inflight[0], data);
  }

  lemma HandOverFrame(p: Pool, i: nat, data: seq<byte>)
    requires i < |p.bufs|
    ensures HandOver(p, i, data).phase == InRead(i, |data|) && HandOver(p, i, data).inflight == []
    ensures HandOver(p.(inflight := []), i, data) == HandOver(p, i, data)
  {
  }

  /** A read that comes back to a closed file, or with an error. */
  lemma FailureKeeps(s: Reader, result: int)
    requires Inv(s) && Enabled(s, ReadDone(result)) && (!IsOpen(s.status) || result < 0)
    ensures Inv(OnRead(s, result))
  {
    hide LentBut, InUse, AllBusy, SessionOk, DropRequest, Called;
    var i := s.pool.inflight[0];
    FourBuffers(s.pool, -1);
    Completed(s.pool, i);
    var taken := s.(pool := s.pool.(inflight := []));
    if IsOpen(s.status) {
      taken := taken.(status := s.status.(readInProgress := false, doneRead := true));
    }
    DropRequestKeeps(taken, i);
    StaysOpen(taken, i);
    ErrorReported(DropRequest(taken, i), if IsOpen(s.status) then ReadError else NotOpen);
  }

  lemma StaysOpen(s: Reader, i: nat)
    requires i < |s.pool.bufs|
    ensures (IsOpen(DropRequest(s, i).status) <==> IsOpen(s.status))
    ensures DropRequest(s, i).status.stalled == s.status.stalled
  {
    hide InUse, AllBusy, Free, LetGo, Take;
    LetGoFrame(s.pool, i);
  }

  lemma LetGoFrame(p: Pool, i: nat)
    requires i < |p.bufs|
    ensures |LetGo(p, i).bufs| == |p.bufs|
  {
  }

  lemma AfterCallbackKeeps(s: Reader)
    requires Inv(s) && s.pool.phase != Idle
    ensures s.pool.phase.i < |s.pool.bufs| && Inv(AfterCallback(s))
  {
    hide LentBut, InUse, AllBusy, DropRequest, ScheduleRead, InOrder, Data, RemovalOk;
    FourBuffers(s.pool, -1);
    CallbackDone(s.pool);
    var back := s.(pool := s.pool.(phase := Idle));
    match s.pool.phase
    case InEnd(i) => DropRequestKeeps(back, i);
    case InRead(i, size) =>
      var on := back.(session := s.session.(currentOffset := s.session.currentOffset + size));
      ScheduleReadKeeps(on, i);
      FourBuffers(ScheduleRead(on).pool, i);
      DropRequestKeeps(ScheduleRead(on), i);
  }

  lemma NextKeeps(s: Reader, e: Event)
    requires Inv(s) && Enabled(s, e)
    ensures Inv(Next(s, e))
  {
    hide OnRead, AfterCallback, Release, Copy, Read, OnClose, ScheduleRemoval, InUse, AllBusy, LentBut;
    match e
    case Opening(file) =>
    case Reading => ReadKeeps(s);
    case Copying(i) => CopyKeeps(s, i);
    case Releasing(i) => ReleaseKeeps(s, i);
    case ClosingFile =>
    case Removing => ScheduleRemovalKeeps(s);
    case Scribbling(content) => Written(s.pool, content);
    case ReadDone(result) =>
      if IsOpen(s.status) && result == 0 { EndKeeps(s); }
      else if IsOpen(s.status) && result > 0 { ChunkKeeps(s, result); }
      else { FailureKeeps(s, result); }
    case Returning => AfterCallbackKeeps(s);
    case CloseDone => OnCloseKeeps(s);
  }

  lemma FreshIsOk()
    ensures Inv(FRESH)
  {
    var b := FRESH.pool.bufs;
    assert b[..3] == [UNUSED, UNUSED, UNUSED] && b[..3][..2] == [UNUSED, UNUSED] && b[..3][..2][..1] == [UNUSED];
    assert BusyCount(b[..3][..2][..1]) == 0;
    assert BusyCount(b[..3][..2]) == 0;
    assert BusyCount(b[..3]) == 0;
  }

  // ---------- every run ----------

  lemma {:induction false} RunKeeps(states: seq<Reader>, events: seq<Event>, k: nat)
    requires IsRun(states, events) && k < |states|
    ensures Inv(states[k])
    decreases k
  {
    hide Inv, Next, Enabled;
    if k == 0 {
      FreshIsOk();
    } else {
      RunKeeps(states, events, k - 1);
      NextKeeps(states[k - 1], events[k - 1]);
    }
  }

  /** Open, asked to read, not at the end, not being closed or removed, and not in the middle of handing over. */
  predicate CouldRead(s: Reader) {
    && s.status.state == Opened && s.status.started && !s.status.doneRead && !s.status.removalScheduled
    && !s.pool.phase.InRead? && !s.status.stalled
  }

  /**
   * At most one read is under way, never into a buffer a user holds, and what users hold stays as
   * it was handed to them; the loop is blocked once for each busy buffer; a reader that may go on
   * is reading unless all four buffers are busy; the chunks so far are the front of the file, each
   * at the offset it says, and the end was called only with all of it handed over; and a file is
   * handed over to be deleted only when it is closed and no buffer can come back to it.
   */
  lemma EveryRun(states: seq<Reader>, events: seq<Event>, k: nat)
    requires IsRun(states, events) && k < |states|
    ensures var s := states[k];
      && |s.pool.inflight| <= 1
      && (forall i :: 0 <= i < |s.pool.bufs| && s.pool.bufs[i].users > 0 ==>
            i !in s.pool.inflight && s.pool.bufs[i].content == s.pool.bufs[i].given)
      && s.pool.blocks == BusyCount(s.pool.bufs)
      && (CouldRead(s) && s.pool.inflight == [] ==> AllBusy(s.pool.bufs))
      && Data(s.session.calls) <= s.session.file && InOrder(s.session.file, s.session.calls)
      && (s.status.removals > 0 ==> s.status.state == Closed && !InUse(s.pool.bufs) && s.pool.inflight == [])
  {
    hide BusyCount, InOrder, Data, AllBusy, Next, Enabled;
    RunKeeps(states, events, k);
    var s := states[k];
    if s.pool.inflight != [] { assert !s.pool.bufs[s.pool.inflight[0]].isFree; }
  }

  /** The flag of a read that is no longer under way. */
  predicate Stale(s: Reader) { s.status.readInProgress && s.pool.inflight == [] }

  predicate Honest(s: Reader) { s.pool.inflight != [] ==> s.status.readInProgress }

  lemma ScheduleReadStale(s: Reader)
    requires Honest(s)
    ensures Honest(ScheduleRead(s)) && (Stale(ScheduleRead(s)) <==> Stale(s))
    ensures |ScheduleRead(s).pool.bufs| == |s.pool.bufs|
  {
  }

  lemma BufferFreedStale(s: Reader, i: nat)
    requires Honest(s) && i < |s.pool.bufs|
    ensures Honest(BufferFreed(s, i)) && (Stale(BufferFreed(s, i)) <==> Stale(s))
  {
    hide AllBusy, InUse, ScheduleRead;
    ScheduleReadStale(s.(pool := Free(s.pool, i)));
  }

  lemma DropRequestStale(s: Reader, i: nat)
    requires Honest(s) && i < |s.pool.bufs|
    ensures Stale(DropRequest(s, i)) <==> Stale(s)
  {
    hide BufferFreed;
    BufferFreedStale(s.(pool := LetGo(s.pool, i)), i);
  }

  lemma AfterCallbackStale(s: Reader)
    requires Honest(s) && s.pool.phase != Idle && s.pool.phase.i < |s.pool.bufs|
    ensures Stale(AfterCallback(s)) <==> Stale(s)
  {
    hide ScheduleRead, DropRequest;
    var back := s.(pool := s.pool.(phase := Idle));
    match s.pool.phase
    case InEnd(i) => DropRequestStale(back, i);
    case InRead(i, size) =>
      var on := back.(session := s.session.(currentOffset := s.session.currentOffset + size));
      ScheduleReadStale(on);
      DropRequestStale(ScheduleRead(on), i);
  }

  lemma OnReadStale(s: Reader, result: int)
    requires Honest(s) && Enabled(s, ReadDone(result))
    ensures Stale(OnRead(s, result)) <==> !IsOpen(s.status)
  {
    hide DropRequest;
    var taken := s.(pool := s.pool.(inflight := []));
    if IsOpen(s.status) {
      taken := taken.(status := s.status.(readInProgress := false, doneRead := true));
    }
    DropRequestStale(taken, s.pool.inflight[0]);
  }

  /** A read that comes back to a closed file leaves its flag behind; nothing else does, and nothing clears it. */
  lemma StaleExactly(s: Reader, e: Event)
    requires Inv(s) && Enabled(s, e)
    ensures Stale(Next(s, e)) <==> Stale(s) || (e.ReadDone? && !IsOpen(s.status))
  {
    hide LentBut, RemovalOk, SessionOk, KeepsReading, InUse, ScheduleRead, BufferFreed, OnRead, AfterCallback,
      RemovalStatus, SetUsers, Write;
    match e
    case Reading => ScheduleReadStale(s.(status := s.status.(doneRead := false, started := true)));
    case Releasing(i) =>
      PoolFrame(s.pool, i, s.pool.bufs[i].users - 1, []);
      BufferFreedStale(s.(pool := SetUsers(s.pool, i, s.pool.bufs[i].users - 1)), i);
    case ReadDone(result) => OnReadStale(s, result);
    case Returning => AfterCallbackStale(s);
    case Copying(i) => PoolFrame(s.pool, i, s.pool.bufs[i].users + 1, []);
    case Scribbling(content) => PoolFrame(s.pool, s.pool.inflight[0], 0, content);
    case Removing => RemovalFlags(s.status, InUse(s.pool.bufs));
    case CloseDone => RemovalFlags(s.status.(state := Closed), InUse(s.pool.bufs));
    case _ =>
  }

  lemma PoolFrame(p: Pool, i: nat, users: nat, content: seq<byte>)
    requires i < |p.bufs|
    ensures SetUsers(p, i, users).inflight == p.inflight == Write(p, i, content).inflight
    ensures |SetUsers(p, i, users).bufs| == |p.bufs|
  {
  }

  lemma RemovalFlags(s: Status, inUse: bool)
    ensures RemovalStatus(s, inUse).readInProgress == s.readInProgress
  {
  }

  /** So a session reads exactly if it was not opened after such a read: then the flag is what it says. */
  lemma StalledSession(states: seq<Reader>, events: seq<Event>, k: nat)
    requires IsRun(states, events) && k < |states| && IsOpen(states[k].status)
    ensures states[k].status.stalled ==> states[k].pool.inflight == [] && states[k].session.calls == []
    ensures !states[k].status.stalled ==> (states[k].status.readInProgress <==> states[k].pool.inflight != [])
  {
    hide LentBut, RemovalOk, SessionOk, KeepsReading, Next, Enabled;
    RunKeeps(states, events, k);
  }

  const READ_INTO := Buffer(false, true, 0, [], [])

  /** Opened and asked to read, a read under way; and closed before it came back. */
  const READS := Reader(
    Pool([READ_INTO, UNUSED, UNUSED, UNUSED], [0], 1, Idle),
    Status(Opened, true, false, true, false, false, false, false, 0, false),
    Session([7], 0, 0, []))

  const CLOSED_EARLY := READS.(status := READS.status.(state := Closed))

  lemma FirstSteps()
    ensures Next(Next(FRESH, Opening([7])), Reading) == READS
    ensures Next(Next(READS, ClosingFile), CloseDone) == CLOSED_EARLY
  {
    var s := Next(FRESH, Opening([7]));
    assert FirstFree(s.pool.bufs, 0) == 0;
    assert Take(s.pool, 0) == READS.pool;
  }

  /** It happens: a file read, closed before the read came back, opened and read again is not read. */
  lemma StallExample() returns (states: seq<Reader>, events: seq<Event>)
    ensures IsRun(states, events) && |events| == 7
    ensures var s := states[7];
      && s.status.state == Opened && s.status.started && !s.status.doneRead
      && s.pool.inflight == [] && !InUse(s.pool.bufs)
  {
    hide FirstFree, Take;
    events := [Opening([7]), Reading, ClosingFile, CloseDone, ReadDone(1), Opening([7]), Reading];
    FirstSteps();
    var s5 := Next(CLOSED_EARLY, ReadDone(1));
    assert s5.pool.bufs == FRESH.pool.bufs;
    var s6 := Next(s5, Opening([7]));
    states := [FRESH, Next(FRESH, Opening([7])), READS, Next(READS, ClosingFile), CLOSED_EARLY,
               s5, s6, Next(s6, Reading)];
  }

  // ---------- after the end ----------

  /** Once the end or an error has been reported, nothing is read until that is asked for again. */
  predicate Quiet(s: Reader) { s.status.doneRead ==> s.pool.inflight == [] && !s.pool.phase.InRead? }

  lemma BufferFreedQuiet(s: Reader, i: nat)
    requires Quiet(s) && i < |s.pool.bufs|
    ensures Quiet(BufferFreed(s, i))
  {
    hide InUse, AllBusy, FirstFree;
  }

  lemma DropRequestQuiet(s: Reader, i: nat)
    requires Quiet(s) && i < |s.pool.bufs|
    ensures Quiet(DropRequest(s, i)) && DropRequest(s, i).session == s.session
  {
    hide BufferFreed;
    BufferFreedQuiet(s.(pool := LetGo(s.pool, i)), i);
    BufferFreedCallsNobody(s.(pool := LetGo(s.pool, i)), i);
  }

  lemma BufferFreedCallsNobody(s: Reader, i: nat)
    requires i < |s.pool.bufs|
    ensures BufferFreed(s, i).session == s.session
  {
    hide InUse, AllBusy, FirstFree;
  }

  lemma ReleaseQuiet(s: Reader, i: nat)
    requires Quiet(s) && i < |s.pool.bufs| && s.pool.bufs[i].users > 0
    ensures Quiet(Release(s, i)) && Release(s, i).session == s.session
  {
    hide BufferFreed;
    var t := s.(pool := SetUsers(s.pool, i, s.pool.bufs[i].users - 1));
    BufferFreedQuiet(t, i);
    BufferFreedCallsNobody(t, i);
  }

  lemma ScheduleReadQuiet(s: Reader)
    requires Quiet(s) && !s.status.doneRead
    ensures Quiet(ScheduleRead(s)) && !ScheduleRead(s).status.doneRead && ScheduleRead(s).session == s.session
    ensures |ScheduleRead(s).pool.bufs| == |s.pool.bufs|
  {
    ScheduleReadStatus(s);
  }

  lemma OnReadQuiet(s: Reader, result: int)
    requires Quiet(s) && Enabled(s, ReadDone(result))
    ensures Quiet(OnRead(s, result))
    ensures IsOpen(s.status) && result <= 0 ==> OnRead(s, result).status.doneRead
  {
    hide DropRequest;
    var i := s.pool.inflight[0];
    var taken := s.(pool := s.pool.(inflight := []));
    DropRequestQuiet(taken, i);
    DropRequestQuiet(taken.(status := s.status.(readInProgress := false, doneRead := true)), i);
    DropRequestStatus(taken.(status := s.status.(readInProgress := false, doneRead := true)), i);
  }

  lemma DropRequestStatus(s: Reader, i: nat)
    requires i < |s.pool.bufs|
    ensures DropRequest(s, i).status.doneRead == s.status.doneRead
  {
    hide InUse, AllBusy, FirstFree;
  }

  lemma AfterCallbackQuiet(s: Reader)
    requires Quiet(s) && s.pool.phase != Idle && s.pool.phase.i < |s.pool.bufs|
    ensures Quiet(AfterCallback(s)) && AfterCallback(s).session.calls == s.session.calls
    ensures AfterCallback(s).status.doneRead == s.status.doneRead
  {
    hide DropRequest, ScheduleRead;
    var back := s.(pool := s.pool.(phase := Idle));
    match s.pool.phase
    case InEnd(i) =>
      DropRequestQuiet(back, i);
      DropRequestStatus(back, i);
    case InRead(i, size) =>
      var on := back.(session := s.session.(currentOffset := s.session.currentOffset + size));
      ScheduleReadQuiet(on);
      DropRequestQuiet(ScheduleRead(on), i);
      DropRequestStatus(ScheduleRead(on), i);
  }

  /** Every event keeps it; and while it lasts, only opening, or asking to read, changes what has been reported. */
  lemma NextQuiet(s: Reader, e: Event)
    requires Quiet(s) && Enabled(s, e)
    ensures Quiet(Next(s, e))
    ensures s.status.doneRead && !e.Reading? && !e.Opening? ==>
      Next(s, e).status.doneRead && Next(s, e).session.calls == s.session.calls
  {
    hide ScheduleRead, BufferFreed, OnRead, AfterCallback, Release, RemovalStatus, InUse;
    match e
    case Reading => ScheduleReadQuiet(s.(status := s.status.(doneRead := false, started := true)));
    case Releasing(i) =>
      ReleaseQuiet(s, i);
      ReleaseStatus(s, i);
    case ReadDone(result) => OnReadQuiet(s, result);
    case Returning => AfterCallbackQuiet(s);
    case Removing => RemovalDone(s.status, InUse(s.pool.bufs));
    case CloseDone => RemovalDone(s.status.(state := Closed), InUse(s.pool.bufs));
    case _ =>
  }

  lemma ReleaseStatus(s: Reader, i: nat)
    requires i < |s.pool.bufs| && s.pool.bufs[i].users > 0
    ensures Release(s, i).status.doneRead == s.status.doneRead
  {
    hide InUse, AllBusy, FirstFree;
  }

  lemma RemovalDone(s: Status, inUse: bool)
    ensures RemovalStatus(s, inUse).doneRead == s.doneRead
  {
  }

  lemma {:induction false} RunQuiet(states: seq<Reader>, events: seq<Event>, k: nat)
    requires IsRun(states, events) && k < |states|
    ensures Quiet(states[k])
    decreases k
  {
    hide Next, Enabled, Quiet;
    if k > 0 {
      RunQuiet(states, events, k - 1);
      NextQuiet(states[k - 1], events[k - 1]);
    } else {
      FreshIsQuiet();
    }
  }

  lemma FreshIsQuiet()
    ensures Quiet(FRESH)
  {
  }

  /**
   * In every run: once the end of the file or an error has been reported, no read is under way and
   * the user is not called again, until the file is opened or asked to be read once more.
   */
  lemma {:induction false} NothingAfterTheEnd(states: seq<Reader>, events: seq<Event>, k: nat, m: nat)
    requires IsRun(states, events) && k < m < |states|
    requires events[k].ReadDone? && events[k].result <= 0 && IsOpen(states[k].status)
    requires forall j :: k < j < m ==> !events[j].Reading? && !events[j].Opening?
    ensures states[m].status.doneRead && states[m].pool.inflight == []
    ensures states[m].session.calls == states[k + 1].session.calls
    decreases m
  {
    hide OnRead, Next, Enabled, Quiet;
    RunQuiet(states, events, m - 1);
    NextQuiet(states[m - 1], events[m - 1]);
    if m == k + 1 {
      EndReported(states[k], events[k].result);
    } else {
      NothingAfterTheEnd(states, events, k, m - 1);
    }
    QuietMeans(states[m]);
  }

  lemma QuietMeans(s: Reader)
    requires Quiet(s) && s.status.doneRead
    ensures s.pool.inflight == []
  {
  }

  lemma EndReported(s: Reader, result: int)
    requires Quiet(s) && Enabled(s, ReadDone(result)) && IsOpen(s.status) && result <= 0
    ensures Next(s, ReadDone(result)).status.doneRead
  {
    hide OnRead;
    OnReadQuiet(s, result);
  }

  lemma ReleaseCounts(s: Reader, i: nat)
    requires i < |s.pool.bufs| && s.pool.bufs[i].users > 0
    ensures var t := Release(s, i);
      && |t.pool.bufs| == |s.pool.bufs| && t.pool.bufs[i].users == s.pool.bufs[i].users - 1
      && (t.pool.bufs[i].users > 0 ==> t.pool.bufs[i].content == s.pool.bufs[i].content)
  {
    hide InUse, AllBusy;
  }

  // ---------- when reads are started ----------

  /** A read under way in `t` was so in `s`, or the file is open in `s` and neither closing nor to be removed. */
  predicate StartedWell(s: Reader, t: Reader) {
    || t.pool.inflight == [] || t.pool.inflight == s.pool.inflight
    || (s.status.state == Opened && !s.status.removalScheduled)
  }

  lemma ScheduleReadStarts(s: Reader)
    ensures StartedWell(s, ScheduleRead(s))
    ensures ScheduleRead(s).status.state == s.status.state
    ensures ScheduleRead(s).status.removalScheduled == s.status.removalScheduled
  {
    hide AllBusy, FirstFree;
  }

  lemma BufferFreedStarts(s: Reader, i: nat)
    requires i < |s.pool.bufs|
    ensures StartedWell(s, BufferFreed(s, i))
  {
    hide InUse, ScheduleRead;
    ScheduleReadStarts(s.(pool := Free(s.pool, i)));
  }

  lemma DropRequestStarts(s: Reader, i: nat)
    requires i < |s.pool.bufs|
    ensures StartedWell(s, DropRequest(s, i))
  {
    hide BufferFreed;
    BufferFreedStarts(s.(pool := LetGo(s.pool, i)), i);
  }

  lemma AfterCallbackStarts(s: Reader)
    requires s.pool.phase != Idle && s.pool.phase.i < |s.pool.bufs|
    ensures StartedWell(s, AfterCallback(s))
  {
    hide DropRequest, ScheduleRead;
    var back := s.(pool := s.pool.(phase := Idle));
    match s.pool.phase
    case InEnd(i) => DropRequestStarts(back, i);
    case InRead(i, size) =>
      var on := back.(session := s.session.(currentOffset := s.session.currentOffset + size));
      ScheduleReadStarts(on);
      ScheduleReadStatus(on);
      DropRequestStarts(ScheduleRead(on), i);
  }

  lemma OnReadStarts(s: Reader, result: int)
    requires Enabled(s, ReadDone(result))
    ensures StartedWell(s, OnRead(s, result))
  {
    hide DropRequest;
    var i := s.pool.inflight[0];
    var taken := s.(pool := s.pool.(inflight := []));
    DropRequestStarts(taken, i);
    DropRequestStarts(taken.(status := s.status.(readInProgress := false, doneRead := true)), i);
  }

  /** No event starts a read of a file that is closed, being closed, or to be removed. */
  lemma ReadsOnlyOpen(s: Reader, e: Event)
    requires Enabled(s, e)
    ensures StartedWell(s, Next(s, e))
  {
    hide ScheduleRead, BufferFreed, OnRead, AfterCallback, RemovalStatus, InUse;
    match e
    case Reading => ScheduleReadStarts(s.(status := s.status.(doneRead := false, started := true)));
    case Releasing(i) => BufferFreedStarts(s.(pool := SetUsers(s.pool, i, s.pool.bufs[i].users - 1)), i);
    case ReadDone(result) => OnReadStarts(s, result);
    case Returning => AfterCallbackStarts(s);
    case _ =>
  }

  // ---------- whether a removal request returns ----------

  /** What a call has come to within some depth of nested calls. */
  datatype Nest = Returned(status: Status) | NotYet

  /** `File::schedule_removal`: marks the file, and hands it over if the implementation says so. */
  function RemovalCall(s: Status, inUse: bool, depth: nat): Nest
    decreases depth, 0
  {
    if depth == 0 then NotYet else ImplRemovalCall(s.(removalScheduled := true), inUse, depth - 1)
  }

  /** `Impl::schedule_removal`: closes an open file with a callback, waits for buffers, or hands over. */
  function ImplRemovalCall(s: Status, inUse: bool, depth: nat): Nest
    decreases depth, 3
  {
    if IsOpen(s) then CloseCall(s, inUse, depth)
    else if inUse then Returned(s.(needRescheduleRemove := true))
    else Returned(s.(removals := s.removals + 1))
  }

  /** `Impl::close` of an open file, with that callback: called at once if a close is under way already. */
  function CloseCall(s: Status, inUse: bool, depth: nat): Nest
    requires IsOpen(s)
    decreases depth, 2
  {
    if s.state == Closing then RemovalCallback(s, inUse, depth)
    else Returned(s.(state := Closing, closeThenRemove := true))
  }

  /** The callback: waits for buffers, or asks for the removal once more. */
  function RemovalCallback(s: Status, inUse: bool, depth: nat): Nest
    decreases depth, 1
  {
    if inUse then Returned(s.(needRescheduleRemove := true)) else RemovalCall(s, inUse, depth)
  }

  /** In that case every call makes another one, in a state that is no different for it. */
  lemma {:induction false} RemovalNests(s: Status, inUse: bool, depth: nat)
    requires s.state == Closing && !inUse
    ensures RemovalCall(s, inUse, depth) == NotYet
    decreases depth
  {
    if depth > 0 {
      var t := s.(removalScheduled := true);
      assert RemovalCall(s, inUse, depth) == ImplRemovalCall(t, inUse, depth - 1);
      assert ImplRemovalCall(t, inUse, depth - 1) == CloseCall(t, inUse, depth - 1);
      assert CloseCall(t, inUse, depth - 1) == RemovalCallback(t, inUse, depth - 1);
      assert RemovalCallback(t, inUse, depth - 1) == RemovalCall(t, inUse, depth - 1);
      RemovalNests(t, inUse, depth - 1);
    }
  }

  lemma RemovalAnswers(s: Status, inUse: bool, depth: nat)
    requires depth > 0 && (s.state != Closing || inUse)
    ensures RemovalCall(s, inUse, depth) == Returned(RemovalStatus(s, inUse))
  {
    var t := s.(removalScheduled := true);
    assert RemovalCall(s, inUse, depth) == ImplRemovalCall(t, inUse, depth - 1);
    if IsOpen(t) {
      assert ImplRemovalCall(t, inUse, depth - 1) == CloseCall(t, inUse, depth - 1);
      if t.state == Closing { assert CloseCall(t, inUse, depth - 1) == RemovalCallback(t, inUse, depth - 1); }
    }
  }

  /**
   * A removal request returns, within some depth of calls, if and only if no close is under way or
   * a buffer is in use; and when it does, it has done what the step of a run does.
   */
  lemma RemovalReturnsExactly(s: Status, inUse: bool)
    ensures (exists depth :: RemovalCall(s, inUse, depth).Returned?) <==> s.state != Closing || inUse
    ensures forall depth :: RemovalCall(s, inUse, depth).Returned? ==>
      RemovalCall(s, inUse, depth).status == RemovalStatus(s, inUse)
    ensures !s.overflow ==>
      (RemovalStatus(s, inUse).overflow <==> forall depth :: RemovalCall(s, inUse, depth) == NotYet)
  {
    hide ImplRemovalCall, CloseCall, RemovalCallback;
    if s.state == Closing && !inUse {
      forall depth: nat ensures RemovalCall(s, inUse, depth) == NotYet { RemovalNests(s, inUse, depth); }
    } else {
      RemovalAnswers(s, inUse, 1);
      forall depth: nat | depth > 0 ensures RemovalCall(s, inUse, depth) == Returned(RemovalStatus(s, inUse)) {
        RemovalAnswers(s, inUse, depth);
      }
    }
  }

  /** When a close completes, its callback finds the file closed, and returns. */
  lemma CallbackReturns(s: Reader)
    requires s.status.state == Closing && s.status.closeThenRemove
    ensures RemovalCallback(s.status.(state := Closed), InUse(s.pool.bufs), 1) == Returned(OnClose(s).status)
  {
  }

  /** It happens: opened, closed, and asked to be removed before the close has completed. */
  lemma RemovalExample() returns (states: seq<Reader>, events: seq<Event>)
    ensures IsRun(states, events) && |events| == 3 && states[3].status.overflow
  {
    events := [Opening([]), ClosingFile, Removing];
    var s1 := OnOpen(FRESH, []);
    var s2 := Close(s1);
    assert !InUse(s2.pool.bufs);
    states := [FRESH, s1, s2, ScheduleRemoval(s2)];
  }

  // ---------- how often a file is handed over ----------

  function Requests(events: seq<Event>): nat {
    if events == [] then 0 else Requests(events[..|events| - 1]) + if events[|events| - 1].Removing? then 1 else 0
  }

  /** Besides a request, only the last buffer or the close can hand over, and only a file that was not yet. */
  predicate HandedOverBy(before: Status, after: Status, requested: bool) {
    && (before.removalScheduled || requested || !after.removalScheduled)
    && (after.removals == before.removals || (requested && after.removals == before.removals + 1)
        || (before.removals == 0 && after.removals == 1 && before.removalScheduled))
  }

  lemma ScheduleReadHandsNothing(s: Reader)
    ensures var t := ScheduleRead(s);
      t.status.removals == s.status.removals && t.status.removalScheduled == s.status.removalScheduled
  {
    hide AllBusy, FirstFree;
  }

  lemma BufferFreedHands(s: Reader, i: nat)
    requires i < |s.pool.bufs| && (s.status.needRescheduleRemove ==> s.status.removalScheduled)
    requires s.status.removals == 0
    ensures HandedOverBy(s.status, BufferFreed(s, i).status, false)
  {
    hide InUse, ScheduleRead, Free;
    ScheduleReadHandsNothing(s.(pool := Free(s.pool, i)));
  }

  lemma DropRequestHands(s: Reader, i: nat)
    requires i < |s.pool.bufs| && (s.status.needRescheduleRemove ==> s.status.removalScheduled)
    requires s.status.removals == 0
    ensures HandedOverBy(s.status, DropRequest(s, i).status, false)
  {
    hide BufferFreed, HandedOverBy;
    NothingHanded(s.status);
    BufferFreedHands(s.(pool := LetGo(s.pool, i)), i);
  }

  lemma NothingHanded(s: Status)
    ensures HandedOverBy(s, s, false)
  {
  }

  /** A buffer that someone holds means that the file has not been handed over. */
  lemma HeldNotHanded(s: Reader, i: nat)
    requires Inv(s) && i < |s.pool.bufs| && (s.pool.bufs[i].users > 0 || s.pool.bufs[i].inRequest)
    ensures s.status.removals == 0 && (s.status.needRescheduleRemove ==> s.status.removalScheduled)
  {
    hide BusyCount, InOrder, Data, KeepsReading;
    assert !s.pool.bufs[i].isFree;
  }

  lemma OnReadHands(s: Reader, result: int)
    requires Inv(s) && Enabled(s, ReadDone(result))
    ensures HandedOverBy(s.status, OnRead(s, result).status, false)
  {
    hide DropRequest, BusyCount, InOrder, Data, KeepsReading;
    var i := s.pool.inflight[0];
    assert s.pool.bufs[i].inRequest by { assert s.pool.inflight == [i]; }
    HeldNotHanded(s, i);
    var taken := s.(pool := s.pool.(inflight := []));
    if IsOpen(s.status) {
      taken := taken.(status := s.status.(readInProgress := false, doneRead := true));
    }
    DropRequestHands(taken, i);
  }

  lemma AfterCallbackHands(s: Reader)
    requires Inv(s) && s.pool.phase != Idle && s.pool.phase.i < |s.pool.bufs|
    ensures HandedOverBy(s.status, AfterCallback(s).status, false)
  {
    hide DropRequest, ScheduleRead, BusyCount, InOrder, Data, KeepsReading;
    var i := s.pool.phase.i;
    assert s.pool.bufs[i].inRequest by { assert InCallbackOf(s.pool, i); }
    HeldNotHanded(s, i);
    var back := s.(pool := s.pool.(phase := Idle));
    match s.pool.phase
    case InEnd(_) => DropRequestHands(back, i);
    case InRead(_, size) =>
      var on := back.(session := s.session.(currentOffset := s.session.currentOffset + size));
      ScheduleReadHandsNothing(on);
      ScheduleReadStatus(on);
      DropRequestHands(ScheduleRead(on), i);
  }

  lemma ScheduleReadStatus(s: Reader)
    ensures ScheduleRead(s).status == s.status.(readInProgress := ScheduleRead(s).status.readInProgress)
    ensures |ScheduleRead(s).pool.bufs| == |s.pool.bufs|
  {
    hide FirstFree;
  }

  lemma NextHands(s: Reader, e: Event)
    requires Inv(s) && Enabled(s, e)
    ensures HandedOverBy(s.status, Next(s, e).status, e.Removing?)
  {
    hide LentBut, SessionOk, KeepsReading, InUse, ScheduleRead, BufferFreed, OnRead, AfterCallback, SetUsers, Write;
    match e
    case Reading => ScheduleReadHandsNothing(s.(status := s.status.(doneRead := false, started := true)));
    case Releasing(i) =>
      HeldNotHanded(s, i);
      PoolFrame(s.pool, i, s.pool.bufs[i].users - 1, []);
      BufferFreedHands(s.(pool := SetUsers(s.pool, i, s.pool.bufs[i].users - 1)), i);
    case ReadDone(result) => OnReadHands(s, result);
    case Returning => AfterCallbackHands(s);
    case _ =>
  }

  /** A file is handed over to be deleted at most as often as that is asked for. */
  lemma {:induction false} HandedOverAtMost(states: seq<Reader>, events: seq<Event>, k: nat)
    requires IsRun(states, events) && k < |states|
    ensures states[k].status.removals <= Requests(events[..k])
    ensures states[k].status.removalScheduled ==> Requests(events[..k]) > 0
    decreases k
  {
    hide Next, Enabled, Inv;
    if k > 0 {
      HandedOverAtMost(states, events, k - 1);
      RunKeeps(states, events, k - 1);
      NextHands(states[k - 1], events[k - 1]);
      assert events[..k][..k - 1] == events[..k - 1];
    }
  }

  /** It happens: two requests for a file that was never opened. */
  lemma HandedOverTwice() returns (states: seq<Reader>, events: seq<Event>)
    ensures IsRun(states, events) && |events| == 2 && states[2].status.removals == 2
  {
    events := [Removing, Removing];
    assert !InUse(FRESH.pool.bufs);
    var s1 := ScheduleRemoval(FRESH);
    states := [FRESH, s1, ScheduleRemoval(s1)];
  }

  /** A removal asked for before, of a file that is closed and has no buffer in use. */
  predicate AlreadyRemovable(s: Reader) {
    s.status.removalScheduled && s.status.state == Closed && !InUse(s.pool.bufs)
  }

  /** One event: a file handed over is handed over again by every further request, and by nothing else. */
  lemma HandsOverAgain(s: Reader, e: Event)
    requires Inv(s) && Enabled(s, e)
    ensures Next(s, e).status.removals >= s.status.removals
    ensures s.status.removals > 0 ==> (Next(s, e).status.removals > s.status.removals <==> e.Removing?)
    ensures Next(s, e).status.removals > 1 <==> s.status.removals > 1 || (e.Removing? && AlreadyRemovable(s))
  {
    hide LentBut, SessionOk, KeepsReading, InUse, Next, Flags;
    NextHands(s, e);
    RemovalIn(s, e);
  }

  lemma RemovalIn(s: Reader, e: Event)
    requires Inv(s) && Enabled(s, e)
    ensures !s.status.overflow && RemovalOk(s.status, InUse(s.pool.bufs))
    ensures e.Removing? ==> Next(s, e).status == RemovalStatus(s.status, InUse(s.pool.bufs))
  {
    hide LentBut, SessionOk, KeepsReading, InUse, Flags;
  }

  /**
   * A file is handed over more than once in a run if and only if a removal is asked for at a moment
   * when one was asked for before, the file is closed and no buffer is in use.
   */
  lemma {:induction false} HandedOverAgainExactly(states: seq<Reader>, events: seq<Event>, k: nat)
    requires IsRun(states, events) && k < |states|
    ensures states[k].status.removals > 1 <==>
      exists j :: 0 <= j < k && events[j].Removing? && AlreadyRemovable(states[j])
    decreases k
  {
    hide Next, Enabled, Inv, AlreadyRemovable;
    if k > 0 {
      HandedOverAgainExactly(states, events, k - 1);
      RunKeeps(states, events, k - 1);
      HandsOverAgain(states[k - 1], events[k - 1]);
    }
  }

  // ---------- what holders of buffers see ----------

  /** Whoever held a buffer, other than `i`, holds it as before, with the same bytes in it. */
  predicate HeldStay(p: Pool, q: Pool, i: int) {
    && |q.bufs| == |p.bufs|
    && forall j :: 0 <= j < |p.bufs| && j != i && p.bufs[j].users > 0 ==>
         && q.bufs[j].users == p.bufs[j].users && q.bufs[j].content == p.bufs[j].content
         && q.bufs[j].given == p.bufs[j].given
  }

  lemma ScheduleReadHeld(s: Reader, loose: int)
    requires InvBut(s, loose)
    ensures HeldStay(s.pool, ScheduleRead(s).pool, -1)
  {
    hide BusyCount, InOrder, Data;
  }

  lemma BufferFreedHeld(s: Reader, i: nat)
    requires InvBut(s, i) && i < READ_BUFS_NUM && !s.pool.bufs[i].inRequest && s.pool.bufs[i].users == 0
    ensures HeldStay(s.pool, BufferFreed(s, i).pool, -1)
  {
    hide BusyCount, InOrder, Data, InUse, ScheduleRead, LentBut, RemovalOk, SessionOk;
    FourBuffers(s.pool, i);
    Freed(s.pool, i);
    var freed := s.(pool := Free(s.pool, i));
    if !s.status.needRescheduleRemove && !s.status.doneRead {
      FreedInv(s, i);
      ScheduleReadHeld(freed, -1);
    }
  }

  lemma FreedInv(s: Reader, i: nat)
    requires InvBut(s, i) && i < READ_BUFS_NUM && !s.pool.bufs[i].inRequest && s.pool.bufs[i].users == 0
    requires !s.status.needRescheduleRemove && |s.pool.bufs| == READ_BUFS_NUM
    ensures InvBut(s.(pool := Free(s.pool, i)), -1)
  {
    hide LentBut, InUse, SessionOk;
    Freed(s.pool, i);
  }

  lemma DropRequestHeld(s: Reader, i: nat)
    requires InvBut(s, i) && i < READ_BUFS_NUM && KeepsReading(s)
    ensures |s.pool.bufs| == READ_BUFS_NUM && HeldStay(s.pool, DropRequest(s, i).pool, -1)
  {
    hide LentBut, InUse, AllBusy, SessionOk, BufferFreed;
    FourBuffers(s.pool, i);
    LetGone(s.pool, i);
    if s.pool.bufs[i].users == 0 { BufferFreedHeld(s.(pool := LetGo(s.pool, i)), i); }
  }

  lemma ReleaseHeld(s: Reader, i: nat)
    requires Inv(s) && i < |s.pool.bufs| && s.pool.bufs[i].users > 0
    ensures HeldStay(s.pool, Release(s, i).pool, i)
  {
    hide LentBut, InUse, AllBusy, SessionOk, BufferFreed;
    FourBuffers(s.pool, -1);
    UsersChanged(s.pool, i, s.pool.bufs[i].users - 1);
    var released := s.(pool := SetUsers(s.pool, i, s.pool.bufs[i].users - 1));
    if s.pool.bufs[i].users == 1 && !s.pool.bufs[i].inRequest { BufferFreedHeld(released, i); }
  }

  lemma ReadHeld(s: Reader)
    requires Inv(s)
    ensures HeldStay(s.pool, Read(s).pool, -1)
  {
    hide LentBut, InUse, AllBusy, SessionOk, ScheduleRead;
    if IsOpen(s.status) { ScheduleReadHeld(s.(status := s.status.(doneRead := false, started := true)), -1); }
  }

  lemma OnReadHeld(s: Reader, result: int)
    requires Inv(s) && Enabled(s, ReadDone(result))
    ensures HeldStay(s.pool, OnRead(s, result).pool, -1)
  {
    hide InUse, AllBusy, SessionOk, DropRequest, BusyCount;
    var i := s.pool.inflight[0];
    FourBuffers(s.pool, -1);
    Completed(s.pool, i);
    var taken := s.(pool := s.pool.(inflight := []));
    if IsOpen(s.status) {
      taken := taken.(status := s.status.(readInProgress := false, doneRead := true));
    }
    if !IsOpen(s.status) || result < 0 { DropRequestHeld(taken, i); }
  }

  lemma AfterCallbackHeld(s: Reader)
    requires Inv(s) && s.pool.phase != Idle
    ensures s.pool.phase.i < |s.pool.bufs| && HeldStay(s.pool, AfterCallback(s).pool, -1)
  {
    hide LentBut, InUse, AllBusy, DropRequest, ScheduleRead, InOrder, Data, RemovalOk;
    FourBuffers(s.pool, -1);
    CallbackDone(s.pool);
    var back := s.(pool := s.pool.(phase := Idle));
    match s.pool.phase
    case InEnd(i) => DropRequestHeld(back, i);
    case InRead(i, size) =>
      var on := back.(session := s.session.(currentOffset := s.session.currentOffset + size));
      ScheduleReadKeeps(on, i);
      ScheduleReadHeld(on, i);
      DropRequestHeld(ScheduleRead(on), i);
  }

  lemma NextHeld(s: Reader, e: Event)
    requires Inv(s) && Enabled(s, e)
    ensures HeldStay(s.pool, Next(s, e).pool, if e.Copying? || e.Releasing? then e.i else -1)
  {
    hide OnRead, AfterCallback, Release, Read, InUse, AllBusy, KeepsReading, BusyCount, SessionOk, RemovalOk;
    match e
    case Reading => ReadHeld(s);
    case Releasing(i) => ReleaseHeld(s, i);
    case ReadDone(result) => OnReadHeld(s, result);
    case Returning => AfterCallbackHeld(s);
    case _ =>
  }

  // ---------- on the fields of the object ----------

  class File {
    const bufs: array<Buffer>
    var inflight: seq<nat>
    var blocks: int
    var phase: Phase
    var state: State
    var readInProgress: bool
    var doneRead: bool
    var started: bool
    var stalled: bool
    var removalScheduled: bool
    var needRescheduleRemove: bool
    var closeThenRemove: bool
    var removals: nat
    var overflow: bool
    var session: Session

    function ThePool(): Pool
      reads this, bufs
    {
      Pool(bufs[..], inflight, blocks, phase)
    }

    function TheStatus(): Status
      reads this
    {
      Status(state, readInProgress, doneRead, started, stalled,
             removalScheduled, needRescheduleRemove, closeThenRemove, removals, overflow)
    }

    function TheReader(): Reader
      reads this, bufs
    {
      Reader(ThePool(), TheStatus(), session)
    }

    ghost predicate Valid()
      reads this, bufs
    {
      Inv(TheReader())
    }

    /** What holds whenever the object is between two calls. */
    lemma Promises()
      requires Valid()
      ensures bufs.Length == READ_BUFS_NUM && |inflight| <= 1 && blocks == BusyCount(bufs[..])
      ensures forall i :: 0 <= i < bufs.Length && bufs[i].users > 0 ==>
        i !in inflight && bufs[i].content == bufs[i].given
      ensures CouldRead(TheReader()) && inflight == [] ==> AllBusy(bufs[..])
      ensures Data(session.calls) <= session.file && InOrder(session.file, session.calls)
      ensures removals > 0 ==> state == Closed && !InUse(bufs[..])
    {
      hide BusyCount, InOrder, Data, AllBusy, InUse;
      assert forall i :: 0 <= i < bufs.Length ==> bufs[..][i] == bufs[i];
    }

    constructor ()
      ensures Valid() && TheReader() == FRESH && fresh(bufs)
    {
      bufs := new Buffer[READ_BUFS_NUM](_ => UNUSED);
      inflight, blocks, phase := [], 0, Idle;
      state, readInProgress, doneRead, started, stalled := Closed, false, false, false, false;
      removalScheduled, needRescheduleRemove, closeThenRemove, removals, overflow := false, false, false, 0, false;
      session := Session([], 0, 0, []);
      new;
      assert bufs[..] == FRESH.pool.bufs;
      FreshIsOk();
    }

    method HasReadBuffersInUse() returns (r: bool)
      ensures r <==> InUse(bufs[..])
    {
      for i := 0 to bufs.Length
        invariant forall j :: 0 <= j < i ==> bufs[j].isFree
      {
        if !bufs[i].isFree {
          assert !bufs[..][i].isFree;
          return true;
        }
      }
      return false;
    }

    /** Starts a read into the first free buffer, if there is one and nothing speaks against it. */
    method ScheduleNextRead(ghost loose: int)
      requires InvBut(TheReader(), loose)
      modifies this`inflight, this`blocks, this`readInProgress, bufs
      ensures InvBut(TheReader(), loose) && KeepsReading(TheReader()) && HeldStay(old(ThePool()), ThePool(), -1)
      ensures TheReader() == ScheduleRead(old(TheReader()))
    {
      hide InvBut, KeepsReading, HeldStay;
      ScheduleReadKeeps(TheReader(), loose);
      ScheduleReadHeld(TheReader(), loose);
      if state == Closed || removalScheduled || state == Closing || readInProgress {
        return;
      }
      var i := 0;
      while i < bufs.Length && !bufs[i].isFree
        invariant i <= bufs.Length && forall j :: 0 <= j < i ==> !bufs[j].isFree
      {
        i := i + 1;
      }
      if i == bufs.Length {
        return;
      }
      assert !AllBusy(bufs[..]) by { assert bufs[..][i].isFree; }
      FirstFreeIs(bufs[..], i);
      bufs[i] := bufs[i].(isFree := false, inRequest := true);
      readInProgress := true;
      blocks := blocks + 1;
      inflight := inflight + [i];
    }

    /** A removal asked for: it is remembered, and carried out only if the file is closed with all buffers free. */
    method RemoveLater()
      requires Lent(ThePool()) && Flags(TheReader()) && SessionOk(session, PendingSize(phase), IsOpen(TheStatus()))
      requires removals > 0 ==> state == Closed && !InUse(bufs[..])
      modifies this`removalScheduled, this`needRescheduleRemove, this`overflow, this`state, this`closeThenRemove,
        this`removals
      ensures Valid() && removalScheduled && state != Opened
      ensures old(state) == Opened ==> state == Closing && closeThenRemove
      ensures removals > old(removals) <==> old(state) == Closed && !InUse(bufs[..])
      ensures TheReader() == ScheduleRemoval(old(TheReader()))
    {
      hide Inv, Lent, Flags, SessionOk;
      ScheduleRemovalKeeps(TheReader());
      removalScheduled := true;
      var inUse := HasReadBuffersInUse();
      if state == Closing {
        if inUse { needRescheduleRemove := true; } else { overflow := true; }
      } else if state == Opened {
        state, closeThenRemove := Closing, true;
      } else if inUse {
        needRescheduleRemove := true;
      } else {
        removals := removals + 1;
      }
    }

    /** The deleter of a buffer: it is free again, or being read into; nobody else's buffer is touched. */
    method OnBufferFreed(i: nat)
      requires i < READ_BUFS_NUM == bufs.Length && InvBut(TheReader(), i) && !bufs[i].inRequest && bufs[i].users == 0
      modifies this, bufs
      ensures Valid() && HeldStay(old(ThePool()), ThePool(), -1)
      ensures TheReader() == BufferFreed(old(TheReader()), i)
    {
      hide Inv, InvBut, HeldStay, Lent, Flags, SessionOk;
      ghost var s := TheReader();
      BufferFreedKeeps(s, i);
      BufferFreedHeld(s, i);
      BeforeRemoval(s, i);
      if !needRescheduleRemove { FreedInv(s, i); }
      bufs[i] := bufs[i].(isFree := true);
      blocks := blocks - 1;
      assert TheReader() == s.(pool := Free(s.pool, i));
      if needRescheduleRemove {
        var inUse := HasReadBuffersInUse();
        if !inUse { RemoveLater(); }
        return;
      }
      if doneRead {
        return;
      }
      ScheduleNextRead(-1);
    }

    /** The request lets go of its buffer: its users keep it, or it is freed. */
    method ResetRequest(i: nat)
      requires i < READ_BUFS_NUM == bufs.Length && InvBut(TheReader(), i) && KeepsReading(TheReader())
      modifies this, bufs
      ensures Valid() && HeldStay(old(ThePool()), ThePool(), -1)
      ensures TheReader() == DropRequest(old(TheReader()), i)
    {
      hide Inv, InvBut, HeldStay, KeepsReading;
      ghost var s := TheReader();
      DropRequestKeeps(s, i);
      DropRequestHeld(s, i);
      DroppedInv(s, i);
      bufs[i] := bufs[i].(inRequest := false);
      assert TheReader() == s.(pool := LetGo(s.pool, i));
      if bufs[i].users == 0 { OnBufferFreed(i); }
    }

    /** A user keeps a chunk. */
    method CopyChunk(i: nat)
      requires Valid() && MayCopy(ThePool(), i)
      modifies bufs
      ensures Valid() && HeldStay(old(ThePool()), ThePool(), i) && bufs[i].users == old(bufs[i].users) + 1
      ensures TheReader() == Copy(old(TheReader()), i)
    {
      hide Inv;
      CopyKeeps(TheReader(), i);
      bufs[i] := bufs[i].(users := bufs[i].users + 1);
    }

    /** A user lets go of a chunk; all others keep theirs as they are. */
    method ReleaseChunk(i: nat)
      requires Valid() && i < bufs.Length && bufs[i].users > 0
      modifies this, bufs
      ensures Valid() && HeldStay(old(ThePool()), ThePool(), i) && bufs[i].users == old(bufs[i].users) - 1
      ensures bufs[i].users > 0 ==> bufs[i].content == old(bufs[i].content)
      ensures TheReader() == Release(old(TheReader()), i)
    {
      hide Inv, InvBut, HeldStay;
      ghost var s := TheReader();
      ReleaseKeeps(s, i);
      ReleaseHeld(s, i);
      ReleaseCounts(s, i);
      ReleasedInv(s, i);
      bufs[i] := bufs[i].(users := bufs[i].users - 1);
      assert TheReader() == s.(pool := SetUsers(s.pool, i, s.pool.bufs[i].users - 1));
      if bufs[i].users == 0 && !bufs[i].inRequest { OnBufferFreed(i); }
    }

    /** Reading goes on from here, if the file is open; nobody's buffer is touched. */
    method StartReading()
      requires Valid()
      modifies this, bufs
      ensures Valid() && HeldStay(old(ThePool()), ThePool(), -1)
      ensures CouldRead(TheReader()) ==> inflight != [] || AllBusy(bufs[..])
      ensures if old(state) == Closed then session.calls == old(session.calls) + [NotOpen] && inflight == old(inflight)
        else started && !doneRead && session == old(session)
      ensures TheReader() == Read(old(TheReader()))
    {
      hide Inv, InvBut, HeldStay, KeepsReading, AllBusy, ScheduleRead;
      ghost var s := TheReader();
      ReadKeeps(s);
      ReadHeld(s);
      AskedInv(s);
      if state == Closed {
        session := session.(calls := session.calls + [NotOpen]);
      } else {
        doneRead := false;
        started := true;
        ScheduleNextRead(-1);
      }
      ReadsOrIsFull(TheReader());
    }

    /** No read is started any more; buffers stay with their holders. */
    method CloseFile()
      requires Valid()
      modifies this`state, this`closeThenRemove
      ensures Valid() && ThePool() == old(ThePool())
      ensures state == if old(state) == Opened then Closing else old(state)
      ensures TheReader() == Close(old(TheReader()))
    {
      hide Inv;
      CloseKeeps(TheReader());
      if state == Opened {
        state, closeThenRemove := Closing, false;
      }
    }

    /** The file is closed; a removal that asked for it is carried out if all buffers are free, and waits otherwise. */
    method CloseCompleted()
      requires Valid() && state == Closing && phase == Idle && !overflow
      modifies this
      ensures Valid() && state == Closed && ThePool() == old(ThePool())
      ensures removals > old(removals) <==> closeThenRemove && !InUse(bufs[..])
      ensures old(removalScheduled) && removals == 0 ==> needRescheduleRemove && InUse(bufs[..])
      ensures TheReader() == OnClose(old(TheReader()))
    {
      hide Inv, InUse, Lent, Flags, SessionOk, ScheduleRemoval, PendingSize, IsOpen;
      ghost var s := TheReader();
      ghost var closed := s.(status := s.status.(state := Closed));
      OnCloseKeeps(s);
      ClosedInv(s);
      OnCloseRemoves(s);
      state := Closed;
      assert TheReader() == closed;
      if closeThenRemove {
        var inUse := HasReadBuffersInUse();
        if inUse {
          needRescheduleRemove := true;
        } else {
          RemoveLater();
          assert TheReader() == ScheduleRemoval(closed);
        }
      }
      assert TheReader() == OnClose(s);
    }

    /**
     * A read has completed. The user is called once: with the next bytes of the file, with the end
     * when there are no more, or with an error. Nobody's buffer is touched.
     */
    method ReadCompleted(result: int)
      requires Valid() && phase == Idle && |inflight| == 1 && inflight[0] < bufs.Length
      requires PossibleResult(session, result) && !overflow
      modifies this, bufs
      ensures Valid() && HeldStay(old(ThePool()), ThePool(), -1)
      ensures session.calls == old(session.calls) + [CallFor(old(TheReader()), result)]
      ensures CallOk(session.file, session.calls, |old(session.calls)|)
      ensures TheReader() == OnRead(old(TheReader()), result)
    {
      hide Inv, HeldStay, CallOk, OnRead, CallFor;
      ghost var s := TheReader();
      NextKeeps(s, ReadDone(result));
      OnReadHeld(s, result);
      OneCall(s, result);
      TakeResult(result);
    }

    /** Its body; what is done for a closed file, and for an open one. */
    method TakeResult(result: int)
      requires Valid() && phase == Idle && |inflight| == 1 && inflight[0] < bufs.Length
      requires PossibleResult(session, result) && !overflow
      modifies this, bufs
      ensures TheReader() == OnRead(old(TheReader()), result)
    {
      hide Inv, InvBut, HeldStay, KeepsReading, DropRequest, OpenResult;
      TakenInv(TheReader(), result);
      var i := inflight[0];
      inflight := [];
      if state == Closed {
        ReportFailure(i, NotOpen);
      } else {
        TakeOpenResult(i, result);
      }
    }

    method TakeOpenResult(i: nat, result: int)
      requires i < READ_BUFS_NUM == bufs.Length && inflight == [] && PossibleResult(session, result)
      requires var s := TheReader().(status := TheStatus().(readInProgress := false, doneRead := true));
        InvBut(s, i) && KeepsReading(s)
      modifies this, bufs
      ensures TheReader() == OpenResult(old(TheReader()), i, result)
    {
      hide InvBut, HeldStay, KeepsReading, DropRequest;
      readInProgress := false;
      if result < 0 {
        doneRead := true;
        ReportFailure(i, ReadError);
      } else if result == 0 {
        doneRead := true;
        session := session.(calls := session.calls + [End]);
        phase := InEnd(i);
      } else {
        HandOverChunk(i, result);
      }
    }

    /** The next `n` bytes of the file go to the user, in the buffer they were read into. */
    method HandOverChunk(i: nat, n: nat)
      requires i < bufs.Length && inflight == [] && session.pos + n <= |session.file|
      modifies this`session, this`phase, bufs
      ensures var data := old(session.file)[old(session.pos)..old(session.pos) + n];
        && ThePool() == HandOver(old(ThePool()), i, data)
        && session == old(session).(
             pos := old(session.pos) + n, calls := old(session.calls) + [Chunk(old(session.currentOffset), data)])
    {
      var data := session.file[session.pos..session.pos + n];
      bufs[i] := bufs[i].(content := data, given := data);
      session := session.(pos := session.pos + n, calls := session.calls + [Chunk(session.currentOffset, data)]);
      phase := InRead(i, n);
    }

    /** The buffer is let go of before the user is called. */
    method ReportFailure(i: nat, c: Call)
      requires i < READ_BUFS_NUM == bufs.Length && InvBut(TheReader(), i) && KeepsReading(TheReader())
      modifies this, bufs
      ensures HeldStay(old(ThePool()), ThePool(), -1) && TheReader() == Called(DropRequest(old(TheReader()), i), c)
    {
      hide Inv, InvBut, HeldStay, KeepsReading, DropRequest;
      ResetRequest(i);
      session := session.(calls := session.calls + [c]);
    }

    /** The callback has returned: the next read is started if that is possible. */
    method CallbackReturned()
      requires Valid() && phase != Idle && phase.i < bufs.Length
      modifies this, bufs
      ensures Valid() && phase == Idle && HeldStay(old(ThePool()), ThePool(), -1)
      ensures CouldRead(TheReader()) ==> inflight != [] || AllBusy(bufs[..])
      ensures TheReader() == AfterCallback(old(TheReader()))
    {
      hide Inv, InvBut, HeldStay, KeepsReading, DropRequest, ScheduleRead, AllBusy;
      ghost var s := TheReader();
      AfterCallbackKeeps(s);
      AfterCallbackHeld(s);
      ReturnedInv(s);
      IdleAfter(s);
      var i := phase.i;
      if phase.InRead? {
        session := session.(currentOffset := session.currentOffset + phase.size);
        phase := Idle;
        ScheduleNextRead(i);
      } else {
        phase := Idle;
      }
      ResetRequest(i);
      ReadsOrIsFull(TheReader());
    }

    /** The file has been opened. */
    method OpenCompleted(file: seq<byte>)
      requires Valid() && state == Closed && inflight == [] && !removalScheduled
      modifies this
      ensures Valid() && ThePool() == old(ThePool()) && state == Opened && session == Session(file, 0, 0, [])
      ensures TheReader() == OnOpen(old(TheReader()), file)
    {
      hide Inv;
      OpeningKeeps(TheReader(), file);
      stalled := readInProgress;
      state, started := Opened, false;
      session := Session(file, 0, 0, []);
    }

    /** Any event: the object keeps its promises, and does what a step of a run does. */
    method Handle(e: Event)
      requires Valid() && Enabled(TheReader(), e)
      modifies this, bufs
      ensures Valid() && TheReader() == Next(old(TheReader()), e)
      ensures HeldStay(old(ThePool()), ThePool(), if e.Copying? || e.Releasing? then e.i else -1)
    {
      hide Inv, HeldStay, Read, Release, OnRead, AfterCallback, OnClose, Close, OnOpen, ScheduleRemoval, Copy;
      ghost var s := TheReader();
      NextKeeps(s, e);
      NextHeld(s, e);
      ValidParts(s);
      match e
      case Opening(file) => OpenCompleted(file);
      case Reading => StartReading();
      case Copying(i) => CopyChunk(i);
      case Releasing(i) => ReleaseChunk(i);
      case ClosingFile => CloseFile();
      case Removing => RemoveLater();
      case Scribbling(content) => bufs[inflight[0]] := bufs[inflight[0]].(content := content);
      case ReadDone(result) => ReadCompleted(result);
      case Returning => CallbackReturned();
      case CloseDone => CloseCompleted();
    }
  }

  lemma {:induction false} FirstFreeIs(bufs: seq<Buffer>, i: nat)
    requires i < |bufs| && bufs[i].isFree && forall j :: 0 <= j < i ==> !bufs[j].isFree
    ensures FirstFree(bufs, 0) == i
  {
    var f := FirstFree(bufs, 0);
    assert !(f < i) && !(i < f);
  }

  // ---------- between the calls ----------

  lemma ValidParts(s: Reader)
    requires Inv(s)
    ensures Lent(s.pool) && Flags(s) && SessionOk(s.session, PendingSize(s.pool.phase), IsOpen(s.status))
    ensures s.status.removals > 0 ==> s.status.state == Closed && !InUse(s.pool.bufs)
  {
  }

  lemma BeforeRemoval(s: Reader, i: nat)
    requires InvBut(s, i) && i < READ_BUFS_NUM && !s.pool.bufs[i].inRequest && s.pool.bufs[i].users == 0
    ensures |s.pool.bufs| == READ_BUFS_NUM
    ensures var t := s.(pool := Free(s.pool, i));
      && Lent(t.pool) && Flags(t) && t.status.removals == 0
      && SessionOk(t.session, PendingSize(t.pool.phase), IsOpen(t.status))
  {
    hide LentBut, InUse, SessionOk;
    FourBuffers(s.pool, i);
    Freed(s.pool, i);
  }

  lemma DroppedInv(s: Reader, i: nat)
    requires InvBut(s, i) && i < READ_BUFS_NUM
    ensures |s.pool.bufs| == READ_BUFS_NUM && InvBut(s.(pool := LetGo(s.pool, i)), i)
  {
    hide LentBut, InUse, AllBusy, SessionOk;
    FourBuffers(s.pool, i);
    LetGone(s.pool, i);
  }

  lemma ReleasedInv(s: Reader, i: nat)
    requires Inv(s) && i < |s.pool.bufs| && s.pool.bufs[i].users > 0
    ensures |s.pool.bufs| == READ_BUFS_NUM
    ensures var t := s.(pool := SetUsers(s.pool, i, s.pool.bufs[i].users - 1));
      t.pool.bufs[i].users == 0 && !t.pool.bufs[i].inRequest ==> InvBut(t, i)
  {
    hide LentBut, InUse, AllBusy, SessionOk;
    FourBuffers(s.pool, -1);
    UsersChanged(s.pool, i, s.pool.bufs[i].users - 1);
  }

  lemma AskedInv(s: Reader)
    requires Inv(s)
    ensures InvBut(s.(status := s.status.(doneRead := false, started := true)), -1)
  {
    hide LentBut, InUse, SessionOk;
  }

  lemma ReadsOrIsFull(s: Reader)
    requires Inv(s)
    ensures CouldRead(s) ==> s.pool.inflight != [] || AllBusy(s.pool.bufs)
  {
    hide LentBut, InUse, AllBusy, SessionOk;
  }

  lemma ClosedInv(s: Reader)
    requires Inv(s) && s.status.state == Closing && s.pool.phase == Idle
    ensures var t := s.(status := s.status.(state := Closed));
      Lent(t.pool) && Flags(t) && SessionOk(t.session, PendingSize(t.pool.phase), IsOpen(t.status))
  {
    hide LentBut, InUse, InOrder, Data;
  }

  lemma OnCloseRemoves(s: Reader)
    requires Inv(s) && !s.status.overflow && s.status.state == Closing && s.pool.phase == Idle
    ensures var t, inUse := OnClose(s), InUse(s.pool.bufs);
      && s.status.removals == 0 && t.status.state == Closed && t.pool == s.pool
      && t.status.closeThenRemove == s.status.closeThenRemove
      && (t.status.removals > 0 <==> s.status.closeThenRemove && !inUse)
      && (s.status.removalScheduled && t.status.removals == 0 ==> t.status.needRescheduleRemove && inUse)
  {
    hide LentBut, InUse, Flags, SessionOk, KeepsReading;
  }

  /** What the user is called with when a read has come back: more of the file is what follows the chunks so far. */
  function CallFor(s: Reader, result: int): Call {
    var had := |Data(s.session.calls)|;
    if s.status.state == Closed then NotOpen
    else if result < 0 then ReadError
    else if result == 0 || had + result > |s.session.file| then End
    else Chunk(had, s.session.file[had..had + result])
  }

  lemma OneCall(s: Reader, result: int)
    requires Inv(s) && Enabled(s, ReadDone(result))
    ensures var t := OnRead(s, result); var n := |s.session.calls|;
      t.session.calls == s.session.calls + [CallFor(s, result)] && CallOk(t.session.file, t.session.calls, n)
  {
    hide LentBut, InUse, AllBusy, DropRequest, Data;
    if IsOpen(s.status) && result == 0 { EndKeeps(s); }
    else if IsOpen(s.status) && result > 0 { ChunkKeeps(s, result); }
    else { DropCallsNobody(s, result); }
  }

  lemma DropCallsNobody(s: Reader, result: int)
    requires Inv(s) && Enabled(s, ReadDone(result)) && (!IsOpen(s.status) || result < 0)
    ensures OnRead(s, result).session.file == s.session.file
    ensures OnRead(s, result).session.calls == s.session.calls + [if IsOpen(s.status) then ReadError else NotOpen]
  {
    hide LentBut, InUse, AllBusy, Free, LetGo, Take;
    LetGoFrame(s.pool.(inflight := []), s.pool.inflight[0]);
  }

  lemma TakenInv(s: Reader, result: int)
    requires Inv(s) && Enabled(s, ReadDone(result))
    ensures |s.pool.bufs| == READ_BUFS_NUM && s.pool.inflight == [s.pool.inflight[0]]
    ensures var t := s.(pool := s.pool.(inflight := [])); var i := s.pool.inflight[0];
      && (!IsOpen(s.status) ==> InvBut(t, i) && KeepsReading(t))
      && (IsOpen(s.status) ==>
            var u := t.(status := s.status.(readInProgress := false, doneRead := true));
            InvBut(u, i) && KeepsReading(u))
  {
    hide LentBut, InUse, AllBusy, SessionOk;
    FourBuffers(s.pool, -1);
    Completed(s.pool, s.pool.inflight[0]);
  }

  lemma ReturnedInv(s: Reader)
    requires Inv(s) && s.pool.phase != Idle
    ensures |s.pool.bufs| == READ_BUFS_NUM && s.pool.phase.i < READ_BUFS_NUM
    ensures var back := s.(pool := s.pool.(phase := Idle));
      && (s.pool.phase.InEnd? ==> InvBut(back, s.pool.phase.i) && KeepsReading(back))
      && (s.pool.phase.InRead? ==>
            InvBut(back.(session := s.session.(currentOffset := s.session.currentOffset + s.pool.phase.size)),
                   s.pool.phase.i))
  {
    hide LentBut, InUse, AllBusy, InOrder, Data;
    FourBuffers(s.pool, -1);
    CallbackDone(s.pool);
  }

  lemma IdleAfter(s: Reader)
    requires s.pool.phase != Idle && s.pool.phase.i < |s.pool.bufs|
    ensures AfterCallback(s).pool.phase == Idle
  {
    hide AllBusy, InUse;
  }
}
