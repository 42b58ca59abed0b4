/** Draining a mount (`fuse_mount_control.go`): flush every open handle, replay the pending store,
    then report whatever is still pending. */
module Drain {
  import opened Basics
  import opened GoSort
  import opened Versions
  import opened DirtyRanges
  import opened Upload
  import opened WriteBack
  import opened Handles

  /** What happens around one flush: the deadline, the network, the disk, the clock. */
  datatype FlushEnv = FlushEnv(inTime: bool, net: Net, disk: Disk, now: int)

  datatype Failure =
    | TimedOut | FlushFailed(path: Path, error: Error) | RecoveryFailed(error: Error) | PendingWorkRemaining

  datatype DrainReport = DrainReport(failure: Option<Failure>, openHandles: nat, dirtyHandles: nat,
                                     cached: nat, cachedBytes: nat)

  /** One flush as a function of the handle and of the world it finds. */
  type FlushFunc<!W> = (Handle, W, FlushEnv) -> (Handle, W, Option<Error>)

  ghost function Flushing(cfg: Option<StoreConfig>): FlushFunc<World> {
    (h: Handle, w: World, e: FlushEnv) => FlushSpec(cfg, h, w, e.net, e.disk)
  }

  /** The world after the first `k` handles were flushed one after the other. */
  ghost function WorldAfter<W>(flush: FlushFunc<W>, hs: seq<Handle>, w: W, env: nat -> FlushEnv, k: nat): W
    requires k <= |hs|
  {
    if k == 0 then w else flush(hs[k - 1], WorldAfter(flush, hs, w, env, k - 1), env(k - 1)).1
  }

  ghost function HandleAfter<W>(flush: FlushFunc<W>, hs: seq<Handle>, w: W, env: nat -> FlushEnv, i: nat): Handle
    requires i < |hs|
  {
    flush(hs[i], WorldAfter(flush, hs, w, env, i), env(i)).0
  }

  /** The flushes of the first `k` handles all succeed. */
  ghost predicate AllFlushed<W>(flush: FlushFunc<W>, hs: seq<Handle>, w: W, env: nat -> FlushEnv, k: nat)
    requires k <= |hs|
  {
    k == 0 || (AllFlushed(flush, hs, w, env, k - 1)
               && flush(hs[k - 1], WorldAfter(flush, hs, w, env, k - 1), env(k - 1)).2.None?)
  }

  lemma AllFlushedPrefix<W>(flush: FlushFunc<W>, hs: seq<Handle>, w: W, env: nat -> FlushEnv, k: nat, i: nat)
    requires i <= k <= |hs| && AllFlushed(flush, hs, w, env, k)
    ensures AllFlushed(flush, hs, w, env, i)
  {
    if i == k {
    } else {
      AllFlushedPrefix(flush, hs, w, env, k - 1, i);
    }
  }

  ghost predicate Shows(order: seq<RemoteFuseFile>, hs: seq<Handle>)
    reads order
  {
    |hs| == |order| && forall k :: 0 <= k < |order| ==> order[k].View() == hs[k]
  }

  /** `order` lists the handles in whatever order the runtime's map yields them. */
  ghost predicate Lists(order: seq<RemoteFuseFile>, handles: set<RemoteFuseFile>) {
    && (forall i, j :: 0 <= i < j < |order| ==> order[i] != order[j])
    && (forall f :: f in order ==> f in handles) && (forall f :: f in handles ==> f in order)
  }

  /** Flushes the handle at position `i` and records what became of it. */
  method DrainNth(rt: FuseRuntime, order: seq<RemoteFuseFile>, env: nat -> FlushEnv, i: nat,
                  ghost hs: seq<Handle>, ghost w: World, ghost now: seq<Handle>, ghost cur: World)
    returns (error: Option<Error>, ghost next: seq<Handle>, ghost cur': World)
    requires rt.Valid() && i < |order| && order[i].runtime == rt
    requires forall k :: 0 <= k < |order| && k != i ==> order[k] != order[i]
    requires Shows(order, now) && rt.Shared() == cur
    requires Progress(Flushing(rt.Config()), hs, w, env, now, cur, i)
    modifies order[i], rt.up, rt.writeBack, rt.readCache
    ensures rt.Valid() && Shows(order, next) && rt.Shared() == cur'
    ensures error.None? ==> Progress(Flushing(rt.Config()), hs, w, env, next, cur', i + 1)
    ensures error.Some? ==> FlushFails(Flushing(rt.Config()), hs, w, env, next, cur', i, error.value)
  {
    error := order[i].Flush(env(i).net, env(i).disk, env(i).now);
    next, cur' := now[i := order[i].View()], rt.Shared();
    ProgressStep(Flushing(rt.Config()), hs, w, env, now, cur, next, cur', i, error);
  }

  /** The flush of handle `i` failed: the handles before it are flushed, those after it untouched. */
  ghost predicate FlushFails<W>(flush: FlushFunc<W>, hs: seq<Handle>, w: W, env: nat -> FlushEnv, now: seq<Handle>,
                                cur: W, i: nat, error: Error)
  {
    && |now| == |hs| && i < |hs| && AllFlushed(flush, hs, w, env, i)
    && (now[i], cur, Some(error)) == flush(hs[i], WorldAfter(flush, hs, w, env, i), env(i))
    && (forall k :: i < k < |hs| ==> now[k] == hs[k])
    && (forall k :: 0 <= k < i ==> now[k] == HandleAfter(flush, hs, w, env, k))
  }

  /** How the flushes of a drain ended after `at` successful ones: all done, stopped by the deadline
      before the next, or stopped by the failure of the next. */
  ghost predicate FlushesEnd<W>(flush: FlushFunc<W>, hs: seq<Handle>, w: W, env: nat -> FlushEnv,
                                failure: Option<Failure>, now: seq<Handle>, cur: W, at: nat)
  {
    && (forall k :: 0 <= k < at ==> env(k).inTime)
    && match failure
       case None => at == |hs| && Progress(flush, hs, w, env, now, cur, at)
       case Some(TimedOut) => at < |hs| && !env(at).inTime && Progress(flush, hs, w, env, now, cur, at)
       case Some(FlushFailed(path, error)) =>
         && at < |hs| && env(at).inTime && path == hs[at].path
         && FlushFails(flush, hs, w, env, now, cur, at, error)
       case _ => false
  }

  /** `order` is the snapshot of the open handles, in whatever order the runtime's map yields them;
      `hs` and `w` are the handles and the world before, `now` and `cur` after. */
  method DrainOpenHandles(rt: FuseRuntime, order: seq<RemoteFuseFile>, env: nat -> FlushEnv,
                          ghost hs: seq<Handle>, ghost w: World)
    returns (failure: Option<Failure>, ghost now: seq<Handle>, ghost cur: World, ghost at: nat)
    requires rt.Valid() && forall f :: f in order ==> f.runtime == rt
    requires forall i, j :: 0 <= i < j < |order| ==> order[i] != order[j]
    requires Shows(order, hs) && rt.Shared() == w
    modifies order, rt.up, rt.writeBack, rt.readCache
    ensures rt.Valid() && Shows(order, now) && rt.Shared() == cur
    ensures FlushesEnd(Flushing(rt.Config()), hs, w, env, failure, now, cur, at)
  {
    hide Progress, FlushFails;
    now, cur, at := hs, w, 0;
    ProgressStart(Flushing(rt.Config()), hs, w, env);
    for i := 0 to |order|
      invariant rt.Valid() && Shows(order, now) && rt.Shared() == cur
      invariant Progress(Flushing(rt.Config()), hs, w, env, now, cur, i)
      invariant forall k :: 0 <= k < i ==> env(k).inTime
    {
      if !env(i).inTime { return Some(TimedOut), now, cur, i; }
      var path := order[i].path;
      SamePath(Flushing(rt.Config()), hs, w, env, now, cur, i);
      var error;
      error, now, cur := DrainNth(rt, order, env, i, hs, w, now, cur);
      if error.Some? { return Some(FlushFailed(path, error.value)), now, cur, i; }
    }
    return None, now, cur, |order|;
  }

  method RecoverPending(rt: FuseRuntime, replies: nat -> Replay) returns (error: Option<Error>)
    requires rt.Valid()
    modifies rt.up, rt.writeBack
    ensures rt.Valid()
    ensures error.None? ==> Recovered(rt.writeBack, old(rt.Shared()), rt.Shared(), replies)
    ensures error.Some? ==> RecoveryStops(rt.writeBack, old(rt.Shared()), rt.Shared(), replies, error.value)
  {
    if rt.writeBack == null { return None; }
    var count;
    count, error := rt.writeBack.Recover(rt.up, replies);
  }

  /** A recovery that stopped at an entry: those before it are gone, that one and the later ones are
      left. */
  ghost predicate RecoveryStops(store: WriteBackStore?, w: World, w': World, replies: nat -> Replay, error: Error) {
    && store != null && (forall p, q :: store.key(p) == store.key(q) ==> p == q)
    && var list := EntryList(store.key, w.pending);
       var (after, done, stopped) := RecoverFrom(EntryUpload, store.identity, w.remote, list, replies, 0);
       && stopped == Some(error) && done <= |list| && w'.remote == after
       && w'.pending == w.pending - FirstPaths(list, done)
  }

  /** A recovery without a failure: every entry found was replayed in order and none is left. */
  ghost predicate Recovered(store: WriteBackStore?, w: World, w': World, replies: nat -> Replay) {
    if store == null then w' == w
    else
      && w'.pending == map[]
      && (forall p, q :: store.key(p) == store.key(q) ==> p == q)
      && var (after, done, stopped) :=
        RecoverFrom(EntryUpload, store.identity, w.remote, EntryList(store.key, w.pending), replies, 0);
         w'.remote == after && stopped.None?
  }

  /** After `i` flushes: the world, the handles done and the handles still to do. */
  ghost predicate Progress<W>(flush: FlushFunc<W>, hs: seq<Handle>, w: W, env: nat -> FlushEnv, now: seq<Handle>,
                              cur: W, i: nat) {
    && |now| == |hs| && i <= |hs|
    && AllFlushed(flush, hs, w, env, i) && cur == WorldAfter(flush, hs, w, env, i)
    && (forall k :: i <= k < |hs| ==> now[k] == hs[k])
    && (forall k :: 0 <= k < i ==> now[k] == HandleAfter(flush, hs, w, env, k))
  }

  lemma ProgressStart<W>(flush: FlushFunc<W>, hs: seq<Handle>, w: W, env: nat -> FlushEnv)
    ensures Progress(flush, hs, w, env, hs, w, 0)
  {}

  lemma ProgressStep<W>(flush: FlushFunc<W>, hs: seq<Handle>, w: W, env: nat -> FlushEnv, now: seq<Handle>, cur: W,
                        next: seq<Handle>, cur': W, i: nat, error: Option<Error>)
    requires i < |hs| && Progress(flush, hs, w, env, now, cur, i) && |next| == |now|
    requires (next[i], cur', error) == flush(now[i], cur, env(i))
    requires forall k :: 0 <= k < |hs| && k != i ==> next[k] == now[k]
    ensures error.None? ==> Progress(flush, hs, w, env, next, cur', i + 1)
    ensures error.Some? ==> FlushFails(flush, hs, w, env, next, cur', i, error.value)
  {}

  lemma SamePath<W>(flush: FlushFunc<W>, hs: seq<Handle>, w: W, env: nat -> FlushEnv, now: seq<Handle>, cur: W, i: nat)
    requires i < |hs| && Progress(flush, hs, w, env, now, cur, i)
    ensures |now| == |hs| && now[i] == hs[i]
  {}

  ghost function DirtyHandles(handles: set<RemoteFuseFile>): (s: set<RemoteFuseFile>)
    reads handles
  {
    set f | f in handles && f.dirty
  }

  method SnapshotPending(rt: FuseRuntime) returns (report: DrainReport)
    requires rt.Valid()
    ensures report.failure.None? && report.openHandles == |rt.openHandles|
    ensures report.dirtyHandles == |DirtyHandles(rt.openHandles)|
    ensures if rt.writeBack == null then report.cached == report.cachedBytes == 0 else
      var own := OwnPaths(rt.writeBack.identity, rt.writeBack.entries);
      report.cached == |own| && report.cachedBytes == SizeSum(rt.writeBack.entries, own)
  {
    var list := Elements(rt.openHandles);
    ListingOfSet(list, rt.openHandles);
    var dirty: nat := 0;
    ghost var counted: set<RemoteFuseFile> := {};
    for i := 0 to |list|
      invariant forall f :: f in counted <==> f in list[..i] && f.dirty
      invariant dirty == |counted|
    {
      PrefixStep(list, i);
      if list[i].dirty {
        assert list[i] !in list[..i];
        dirty := dirty + 1;
        counted := counted + {list[i]};
      }
    }
    assert list[..|list|] == list;
    assert counted == DirtyHandles(rt.openHandles);
    var cached, bytes: nat := 0, 0;
    if rt.writeBack != null {
      cached, bytes := rt.writeBack.PendingStats();
    }
    return DrainReport(None, |list|, dirty, cached, bytes);
  }

  /** How a drain ended. `mid` is the world after the flushes, `end` the one at the end, `stillDirty`
      whether a handle is dirty then. */
  ghost predicate DrainEnded(cfg: Option<StoreConfig>, store: WriteBackStore?, hs: seq<Handle>, w: World,
                             env: nat -> FlushEnv, inTime: bool, replies: nat -> Replay, failure: Option<Failure>,
                             now: seq<Handle>, mid: World, end: World, stillDirty: bool, at: nat)
  {
    match failure
    case None =>
      && FlushesEnd(Flushing(cfg), hs, w, env, None, now, mid, at) && inTime
      && Recovered(store, mid, end, replies) && !stillDirty
    case Some(PendingWorkRemaining) =>
      && FlushesEnd(Flushing(cfg), hs, w, env, None, now, mid, at) && inTime
      && Recovered(store, mid, end, replies) && stillDirty
    case Some(RecoveryFailed(error)) =>
      && FlushesEnd(Flushing(cfg), hs, w, env, None, now, mid, at) && inTime
      && RecoveryStops(store, mid, end, replies, error)
    case Some(f) =>
      && end == mid
      && (FlushesEnd(Flushing(cfg), hs, w, env, failure, now, mid, at)
          || (f == TimedOut && !inTime && FlushesEnd(Flushing(cfg), hs, w, env, None, now, mid, at)))
  }

  /** The two phases: the flushes, then, if all is well and there is time, the recovery. */
  method DrainPhases(rt: FuseRuntime, order: seq<RemoteFuseFile>, env: nat -> FlushEnv, inTime: bool,
                     replies: nat -> Replay, ghost hs: seq<Handle>, ghost w: World)
    returns (failure: Option<Failure>, ghost now: seq<Handle>, ghost mid: World, ghost at: nat)
    requires rt.Valid() && forall f :: f in order ==> f.runtime == rt
    requires forall i, j :: 0 <= i < j < |order| ==> order[i] != order[j]
    requires Shows(order, hs) && rt.Shared() == w
    modifies order, rt.up, rt.writeBack, rt.readCache
    ensures rt.Valid() && Shows(order, now) && failure != Some(PendingWorkRemaining)
    ensures DrainEnded(rt.Config(), rt.writeBack, hs, w, env, inTime, replies, failure, now, mid, rt.Shared(), false,
                       at)
  {
    hide FlushesEnd, FuseRuntime.Valid, Recovered, RecoveryStops, Shows;
    failure, now, mid, at := DrainOpenHandles(rt, order, env, hs, w);
    EndKinds(Flushing(rt.Config()), hs, w, env, failure, now, mid, at);
    if failure.Some? { return; }
    if !inTime { return Some(TimedOut), now, mid, at; }
    var error := RecoverPending(rt, replies);
    if error.Some? { return Some(RecoveryFailed(error.value)), now, mid, at; }
  }

  /** The whole drain, and what each kind of failure means. A drain that reports no failure has flushed
      every handle successfully and leaves no dirty handle and no journalled write; while a handle is
      open that is dirty but not writable, a drain always reports a failure. */
  method DrainMount(rt: FuseRuntime, order: seq<RemoteFuseFile>, env: nat -> FlushEnv, inTime: bool,
                    replies: nat -> Replay, ghost hs: seq<Handle>, ghost w: World)
    returns (report: DrainReport, ghost now: seq<Handle>, ghost mid: World, ghost at: nat)
    requires rt.Valid() && Lists(order, rt.openHandles) && forall f :: f in order ==> f.runtime == rt
    requires Shows(order, hs) && rt.Shared() == w
    modifies order, rt.up, rt.writeBack, rt.readCache
    ensures rt.Valid() && Shows(order, now)
    ensures DrainEnded(rt.Config(), rt.writeBack, hs, w, env, inTime, replies, report.failure, now, mid, rt.Shared(),
                       report.dirtyHandles != 0, at)
    ensures report.dirtyHandles != 0 <==> exists f :: f in rt.openHandles && f.dirty
    ensures (exists i :: 0 <= i < |hs| && hs[i].dirty && !hs[i].writable) ==> report.failure.Some?
  {
    hide FlushesEnd, FuseRuntime.Valid, RecoveryStops, WriteBackStore.Valid, SizeSum, DirtyHandles, Shows;
    var failure;
    failure, now, mid, at := DrainPhases(rt, order, env, inTime, replies, hs, w);
    report := SnapshotPending(rt);
    DirtyOnes(rt.openHandles);
    if failure.None? {
      NothingOwn(rt.writeBack);
      assert report.cached == 0;
    }
    if failure.None? && (report.dirtyHandles != 0 || report.cached != 0) {
      failure := Some(PendingWorkRemaining);
    }
    report := report.(failure := failure);
    if failure.None? || failure == Some(PendingWorkRemaining) {
      UnwritableIsFound(rt, order, hs, w, env, now, mid, at);
    }
  }

  /** The three ways in which the flushes end, told apart: they succeed exactly if there is time for each
      and each succeeds; the deadline stops them exactly at the first handle without time, if all before it
      succeeded; else the first failure does. */
  lemma FlushesEndExactly<W>(flush: FlushFunc<W>, hs: seq<Handle>, w: W, env: nat -> FlushEnv,
                             failure: Option<Failure>, now: seq<Handle>, cur: W, at: nat)
    requires FlushesEnd(flush, hs, w, env, failure, now, cur, at)
    ensures failure.None? <==> AllInTime(env, |hs|) && AllFlushed(flush, hs, w, env, |hs|)
    ensures failure == Some(TimedOut) <==>
      exists k :: 0 <= k < |hs| && !env(k).inTime && AllInTime(env, k) && AllFlushed(flush, hs, w, env, k)
    ensures failure.Some? ==> failure.value.TimedOut? || failure.value.FlushFailed?
    ensures failure.Some? && failure.value.FlushFailed? ==>
      && at < |hs| && AllFlushed(flush, hs, w, env, at) && failure.value.path == hs[at].path
      && flush(hs[at], WorldAfter(flush, hs, w, env, at), env(at)).2 == Some(failure.value.error)
  {
    hide WorldAfter, HandleAfter, AllFlushed;
    if failure.Some? && failure.value.FlushFailed? {
      forall k | at < k <= |hs| ensures !AllFlushed(flush, hs, w, env, k) {
        FailureStays(flush, hs, w, env, at, k);
      }
    }
  }

  predicate AllInTime(env: nat -> FlushEnv, k: nat) { forall i :: 0 <= i < k ==> env(i).inTime }

  lemma {:induction false} FailureStays<W>(flush: FlushFunc<W>, hs: seq<Handle>, w: W, env: nat -> FlushEnv, at: nat,
                                           k: nat)
    requires at < k <= |hs| && flush(hs[at], WorldAfter(flush, hs, w, env, at), env(at)).2.Some?
    ensures !AllFlushed(flush, hs, w, env, k)
  {
    hide WorldAfter;
    if AllFlushed(flush, hs, w, env, k) { AllFlushedPrefix(flush, hs, w, env, k, at + 1); }
  }

  /** Up to where the flushes ended every handle is what its flush made of it, after that it is as it was. */
  lemma {:induction false} FlushesLeave<W>(flush: FlushFunc<W>, hs: seq<Handle>, w: W, env: nat -> FlushEnv,
                                           failure: Option<Failure>, now: seq<Handle>, cur: W, at: nat)
    requires FlushesEnd(flush, hs, w, env, failure, now, cur, at)
    ensures var done := if failure.Some? && failure.value.FlushFailed? then at + 1 else at;
      && |now| == |hs| && done <= |hs| && cur == WorldAfter(flush, hs, w, env, done)
      && forall k :: 0 <= k < |hs| ==> now[k] == if k < done then HandleAfter(flush, hs, w, env, k) else hs[k]
  {
    hide AllFlushed, WorldAfter;
    if failure.Some? && failure.value.FlushFailed? { OneMoreWorld(flush, hs, w, env, at); }
  }

  lemma OneMoreWorld<W>(flush: FlushFunc<W>, hs: seq<Handle>, w: W, env: nat -> FlushEnv, k: nat)
    requires k < |hs|
    ensures WorldAfter(flush, hs, w, env, k + 1) == flush(hs[k], WorldAfter(flush, hs, w, env, k), env(k)).1
  {}

  /** A drain reports no failure exactly if there was time for every flush and for the recovery, every flush
      and the replay of every entry then left succeeded, and no handle is dirty afterwards. */
  lemma DrainSucceedsIff(cfg: Option<StoreConfig>, store: WriteBackStore?, hs: seq<Handle>, w: World,
                         env: nat -> FlushEnv, inTime: bool, replies: nat -> Replay, failure: Option<Failure>,
                         now: seq<Handle>, mid: World, end: World, stillDirty: bool, at: nat)
    requires DrainEnded(cfg, store, hs, w, env, inTime, replies, failure, now, mid, end, stillDirty, at)
    requires store != null ==> forall p, q :: store.key(p) == store.key(q) ==> p == q
    ensures failure.None? <==>
      && AllInTime(env, |hs|) && AllFlushed(Flushing(cfg), hs, w, env, |hs|) && inTime && !stillDirty
      && (store != null ==>
            var list := EntryList(store.key, mid.pending);
            RecoverFrom(EntryUpload, store.identity, mid.remote, list, replies, 0).2.None?)
    ensures failure.None? && store != null ==> end.pending == map[]
  {
    hide FlushesEnd, FlushSpec, RecoverFrom, AllFlushed, AllInTime, Flushing;
    var flushed := if failure.Some? && FlushesEnd(Flushing(cfg), hs, w, env, failure, now, mid, at) then failure
                   else None;
    FlushesEndExactly(Flushing(cfg), hs, w, env, flushed, now, mid, at);
  }

  /** After the flushes a dirty handle that is not writable is still among the dirty ones. */
  lemma UnwritableIsFound(rt: FuseRuntime, order: seq<RemoteFuseFile>, hs: seq<Handle>, w: World, env: nat -> FlushEnv,
                          now: seq<Handle>, mid: World, at: nat)
    requires Lists(order, rt.openHandles) && Shows(order, now)
    requires FlushesEnd(Flushing(rt.Config()), hs, w, env, None, now, mid, at)
    ensures (exists i :: 0 <= i < |hs| && hs[i].dirty && !hs[i].writable) ==>
      exists f :: f in rt.openHandles && f.dirty
  {
    hide FlushesEnd, FlushSpec;
    if i :| 0 <= i < |hs| && hs[i].dirty && !hs[i].writable {
      UnwritableStaysDirty(rt.Config(), hs, w, env, now, mid, at, i);
      assert order[i].View() == now[i];
      assert order[i] in rt.openHandles && order[i].dirty;
    }
  }

  lemma NothingOwn(store: WriteBackStore?)
    ensures store != null && store.entries == map[] ==> OwnPaths(store.identity, store.entries) == {}
  {}

  lemma DirtyOnes(handles: set<RemoteFuseFile>)
    ensures |DirtyHandles(handles)| != 0 <==> exists f :: f in handles && f.dirty
  {
    if f :| f in handles && f.dirty { assert f in DirtyHandles(handles); }
    if |DirtyHandles(handles)| != 0 {
      var f :| f in DirtyHandles(handles);
      assert f in handles && f.dirty;
    }
  }

  lemma EndKinds<W>(flush: FlushFunc<W>, hs: seq<Handle>, w: W, env: nat -> FlushEnv, failure: Option<Failure>,
                    now: seq<Handle>, cur: W, at: nat)
    requires FlushesEnd(flush, hs, w, env, failure, now, cur, at)
    ensures failure.Some? ==> failure.value.TimedOut? || failure.value.FlushFailed?
  {}

  lemma UnwritableStaysDirty(cfg: Option<StoreConfig>, hs: seq<Handle>, w: World, env: nat -> FlushEnv,
                             now: seq<Handle>, mid: World, at: nat, i: nat)
    requires FlushesEnd(Flushing(cfg), hs, w, env, None, now, mid, at)
    requires i < |hs| && hs[i].dirty && !hs[i].writable
    ensures |now| == |hs| && now[i].dirty
  {
    ReadOnlyDirtyHandleStays(cfg, hs, w, env, i);
  }

  /** Such handles exist: changing the mode through a handle opened for reading makes one. */
  lemma ModeChangeMakesOne(path: Path, data: Bytes, version: Version, truncated: bool, mode: int)
    ensures var h := SetattrHandle(OpenSpec(path, data, false, false, version, truncated), None, Some(mode)).0;
      h.dirty && !h.writable
  {}

  /** Only a handle that was not opened for writing stays dirty through successful flushes, and it
      always does. */
  lemma ReadOnlyDirtyHandleStays(cfg: Option<StoreConfig>, hs: seq<Handle>, w: World, env: nat -> FlushEnv, i: nat)
    requires i < |hs|
    ensures AllFlushed(Flushing(cfg), hs, w, env, |hs|) ==>
      (hs[i].dirty && HandleAfter(Flushing(cfg), hs, w, env, i).dirty ==> !hs[i].writable)
    ensures hs[i].dirty && !hs[i].writable ==> HandleAfter(Flushing(cfg), hs, w, env, i).dirty
  {
    if AllFlushed(Flushing(cfg), hs, w, env, |hs|) {
      AllFlushedPrefix(Flushing(cfg), hs, w, env, |hs|, i + 1);
    }
  }
}
