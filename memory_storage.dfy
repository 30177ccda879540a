/** `MemoryStorage<T>`: attaches this process to the named segment, joining it
    when a ready segment of the right element size exists and creating it
    otherwise, over at most three attempts.

    What the system calls do is the `ShmSystem` model; which of them fail is
    given per attempt by an `AttemptEnv`. The functions `JoinSpec`,
    `CreateSpec`, `Attempt` and `BuildLoop` state, as values, what the
    methods do to the namespace and what they return; the methods are proved
    to follow them and, beyond that, state what they do to the descriptor,
    the mappings and the view. */
module MemoryStorage {

  import opened Wrappers
  import opened Layout
  import opened DataView
  import opened ShmNamespace

  /** `JoinResult`. */
  datatype JoinResult = Success | FileNotFound | DataCorrupt | TypeMismatch | SystemError

  /** `sizeof(T)` and `sizeof(PaddedValue<T>)` as compiled into this process. */
  datatype TypeInfo = TypeInfo(elemSize: u64, cellSize: u64)

  /** What happens to the system calls of one `try_join_existing`: the fault of
      the `shm_open` (past the existence check), of the header mapping, of the
      huge-page and of the fallback mapping, and the headers the polls read
      (poll k reads `polls[k]`, a peer's store in progress; past the end of
      `polls` it reads the header as stored). */
  datatype JoinEnv = JoinEnv(
    openFault: Option<Errno>,
    headerMapFault: Option<Errno>,
    polls: seq<ShmHeader>,
    hugeMapFault: Option<Errno>,
    plainMapFault: Option<Errno>)

  /** What happens to the system calls of one `try_create_new`. */
  datatype CreateEnv = CreateEnv(
    openFault: Option<Errno>,
    truncateFault: Option<Errno>,
    hugeMapFault: Option<Errno>,
    plainMapFault: Option<Errno>)

  /** One iteration of `build`: its join, an object a peer may create under the
      name between the join and the create (the race the exclusive create
      resolves), and its create. */
  datatype AttemptEnv = AttemptEnv(join: JoinEnv, racer: Option<ShmObject>, create: CreateEnv)

  /** `wait_count > 2000` ends the wait for the magic: the magic is read for
      `wait_count` = 0, 1, ..., 2000, with a 1 ms sleep after each miss. */
  const PollLimit: nat := 2000

  /** `build` loops `for (i = 0; i < 3; i += 1)`. */
  const MaxAttempts: nat := 3

  /** The header read by poll `k`. */
  function Polled(polls: seq<ShmHeader>, stored: ShmHeader, k: nat): ShmHeader
  {
    if k < |polls| then polls[k] else stored
  }

  predicate IsReady(h: ShmHeader)
  {
    h.magicNum == ReadyMagic
  }

  /** No poll the joiner makes sees the ready magic. */
  predicate NeverReady(polls: seq<ShmHeader>, stored: ShmHeader)
  {
    forall k :: 0 <= k <= PollLimit ==> !IsReady(Polled(polls, stored, k))
  }

  /** The first poll from `k` on that sees the ready magic, if any does. */
  function FirstReady(polls: seq<ShmHeader>, stored: ShmHeader, k: nat): (r: Option<nat>)
    requires k <= PollLimit + 1
    ensures r.Some? ==> k <= r.value <= PollLimit && IsReady(Polled(polls, stored, r.value))
    ensures r.Some? ==> forall j :: k <= j < r.value ==> !IsReady(Polled(polls, stored, j))
    ensures r.None? ==> forall j :: k <= j <= PollLimit ==> !IsReady(Polled(polls, stored, j))
    decreases PollLimit + 1 - k
  {
    if k > PollLimit then None
    else if IsReady(Polled(polls, stored, k)) then Some(k)
    else FirstReady(polls, stored, k + 1)
  }

  /** The joiner gets a descriptor: the name exists and `shm_open` succeeds. */
  predicate JoinOpens(objects: map<string, ShmObject>, name: string, env: JoinEnv)
  {
    name in objects && env.openFault.None?
  }

  /** The outcome of `try_join_existing`, the namespace it leaves and the header
      it read once the magic was ready. */
  datatype JoinRun = JoinRun(result: JoinResult, objects: map<string, ShmObject>, header: ShmHeader)

  /** What a joiner's read of the header finds in `obj` as stored. The join
      modelled here checks the object's size before it reads (as `fstat`
      would) and takes an object its creator has not sized yet for one not
      yet ready; as written the source reads it anyway (`JoinAsWritten`). */
  function StoredHeader(obj: ShmObject): (h: ShmHeader)
    ensures obj.size == 0 ==> !IsReady(h)
    ensures obj.size > 0 ==> h == obj.header
  {
    if obj.size == 0 then ZeroHeader else obj.header
  }

  /** The first poll of the join on `name` that sees the magic, if any. */
  function JoinReady(objects: map<string, ShmObject>, name: string, env: JoinEnv): Option<nat>
    requires name in objects
  {
    FirstReady(env.polls, StoredHeader(objects[name]), 0)
  }

  function JoinSpec(objects: map<string, ShmObject>, name: string, env: JoinEnv, ty: TypeInfo): (r: JoinRun)
    // FILE_NOT_FOUND: the name is missing (or `shm_open` says so)
    ensures r.result == FileNotFound <==> name !in objects || env.openFault == Some(ENOENT)
    // DATA_CORRUPT exactly when no poll saw the magic; only that outcome removes the name
    ensures r.result == DataCorrupt <==>
      JoinOpens(objects, name, env) && env.headerMapFault.None? && NeverReady(env.polls, StoredHeader(objects[name]))
    ensures r.objects == if r.result == DataCorrupt then objects - {name} else objects
    // once a poll has seen the magic, the header of that poll decides
    ensures r.result == Success || r.result == TypeMismatch ==>
      JoinOpens(objects, name, env) && env.headerMapFault.None? && JoinReady(objects, name, env).Some?
    ensures JoinOpens(objects, name, env) && env.headerMapFault.None? && JoinReady(objects, name, env).Some? ==>
      var h := Polled(env.polls, StoredHeader(objects[name]), JoinReady(objects, name, env).value);
      && r.header == h
      && (r.result == TypeMismatch <==> h.elementSize != ty.elemSize)
      && (r.result == Success <==> h.elementSize == ty.elemSize && (env.hugeMapFault.None? || env.plainMapFault.None?))
    // SYSTEM_ERROR: the open fails for another reason, the header mapping fails, or both full mappings fail
    ensures r.result == SystemError <==>
      || (name in objects && env.openFault.Some? && env.openFault.value != ENOENT)
      || (JoinOpens(objects, name, env) && env.headerMapFault.Some?)
      || (JoinOpens(objects, name, env) && env.headerMapFault.None? && JoinReady(objects, name, env).Some?
          && Polled(env.polls, StoredHeader(objects[name]), JoinReady(objects, name, env).value).elementSize == ty.elemSize
          && env.hugeMapFault.Some? && env.plainMapFault.Some?)
  {
    if name !in objects then JoinRun(FileNotFound, objects, ZeroHeader)
    else if env.openFault.Some? then
      JoinRun(if env.openFault.value == ENOENT then FileNotFound else SystemError, objects, ZeroHeader)
    else if env.headerMapFault.Some? then JoinRun(SystemError, objects, ZeroHeader)
    else
      match JoinReady(objects, name, env)
      case None => JoinRun(DataCorrupt, objects - {name}, ZeroHeader)
      case Some(k) =>
        var h := Polled(env.polls, StoredHeader(objects[name]), k);
        if h.elementSize != ty.elemSize then JoinRun(TypeMismatch, objects, h)
        else if env.hugeMapFault.Some? && env.plainMapFault.Some? then JoinRun(SystemError, objects, h)
        else JoinRun(Success, objects, h)
  }

  /** `try_join_existing` as written: it reads `magic_num` through a 4096-byte
      mapping without looking at the object's size. On an object its creator
      has not sized yet (after the exclusive `shm_open`, before `ftruncate`,
      or left so by a creator that died there) that read lies past the end of
      the object and the process is killed by SIGBUS: `None`. Otherwise the
      outcome is the one of `JoinSpec`. */
  function JoinAsWritten(objects: map<string, ShmObject>, name: string, env: JoinEnv, ty: TypeInfo): (r: Option<JoinRun>)
    ensures r.None? <==> JoinOpens(objects, name, env) && env.headerMapFault.None? && objects[name].size == 0
    ensures r.Some? ==> r.value == JoinSpec(objects, name, env, ty)
  {
    if JoinOpens(objects, name, env) && env.headerMapFault.None? && objects[name].size == 0 then None
    else Some(JoinSpec(objects, name, env, ty))
  }

  /** The outcome of `try_create_new`: `None` for success, otherwise the
      `errno` it leaves; and the namespace after it. */
  datatype CreateRun = CreateRun(failure: Option<Errno>, objects: map<string, ShmObject>)

  function CreateSpec(objects: map<string, ShmObject>, name: string, count: u64, env: CreateEnv, ty: TypeInfo): (r: CreateRun)
    // exclusive creation: an existing name fails with EEXIST
    ensures CreationSize(count, ty.cellSize).Some? && name in objects ==> r.failure == Some(EEXIST)
    // a failed create leaves the namespace as it found it (what it created, it unlinked)
    ensures r.failure.Some? ==> r.objects == objects
    ensures r.failure.None? <==>
      && CreationSize(count, ty.cellSize).Some? && name !in objects
      && env.openFault.None? && env.truncateFault.None?
      && (env.hugeMapFault.None? || env.plainMapFault.None?)
    // a successful one adds the name, sized and with its header published
    ensures r.failure.None? ==>
      var size := CreationSize(count, ty.cellSize).value;
      r.objects == objects[name := ShmObject(size, PublishedHeader(count, ty.elemSize, size))]
  {
    match CreationSize(count, ty.cellSize)
    case None => CreateRun(Some(EOVERFLOW), objects)
    case Some(size) =>
      if name in objects then CreateRun(Some(EEXIST), objects)
      else if env.openFault.Some? then CreateRun(env.openFault, objects)
      else if env.truncateFault.Some? then CreateRun(env.truncateFault, objects)
      else if env.hugeMapFault.Some? && env.plainMapFault.Some? then CreateRun(env.plainMapFault, objects)
      else CreateRun(None, objects[name := ShmObject(size, PublishedHeader(count, ty.elemSize, size))])
  }

  /** The namespace after a racing peer's create, if one raced. */
  function Raced(objects: map<string, ShmObject>, name: string, racer: Option<ShmObject>): map<string, ShmObject>
  {
    if racer.Some? && name !in objects then objects[name := racer.value] else objects
  }

  /** The exceptions `build` throws. */
  datatype BuildError =
    | NotRoot             // geteuid() != 0
    | TypeMismatchError   // a ready segment with another element size
    | SystemFailure(errno: Errno) // a create that failed for a reason other than EEXIST
    | ContentionTimeout   // three attempts without a result

  /** `build` returns true (joined) or false (created), or throws. */
  datatype BuildOutcome = Joined | Created | Thrown(error: BuildError)

  datatype Step = Retry | Done(outcome: BuildOutcome)

  datatype AttemptRun = AttemptRun(step: Step, objects: map<string, ShmObject>)

  /** One iteration of the `build` loop: join; a successful join returns, a type
      mismatch throws, a corrupt segment retries; otherwise create, which
      returns on success, retries on EEXIST and throws on anything else. */
  function Attempt(objects: map<string, ShmObject>, name: string, count: u64, env: AttemptEnv, ty: TypeInfo): (r: AttemptRun)
    ensures var j := JoinSpec(objects, name, env.join, ty);
      var c := CreateSpec(Raced(j.objects, name, env.racer), name, count, env.create, ty);
      var created := j.result in {FileNotFound, SystemError};
      && (r.step == Done(Joined) <==> j.result == Success)
      && (r.step == Done(Thrown(TypeMismatchError)) <==> j.result == TypeMismatch)
      && (r.step == Done(Created) <==> created && c.failure.None?)
      && (r.step == Retry <==> j.result == DataCorrupt || (created && c.failure == Some(EEXIST)))
      && (r.step.Done? && r.step.outcome.Thrown? && r.step.outcome.error.SystemFailure? <==>
            created && c.failure.Some? && c.failure.value != EEXIST)
      && (r.objects == if created then c.objects else j.objects)
  {
    var j := JoinSpec(objects, name, env.join, ty);
    match j.result
    case Success => AttemptRun(Done(Joined), j.objects)
    case TypeMismatch => AttemptRun(Done(Thrown(TypeMismatchError)), j.objects)
    case DataCorrupt => AttemptRun(Retry, j.objects)
    case _ =>
      var c := CreateSpec(Raced(j.objects, name, env.racer), name, count, env.create, ty);
      if c.failure.None? then AttemptRun(Done(Created), c.objects)
      else if c.failure.value == EEXIST then AttemptRun(Retry, c.objects)
      else AttemptRun(Done(Thrown(SystemFailure(c.failure.value))), c.objects)
  }

  /** The result of `build`, the namespace it leaves and how many attempts it made. */
  datatype BuildRun = BuildRun(outcome: BuildOutcome, objects: map<string, ShmObject>, attempts: nat)

  /** The `build` loop from attempt `i` on. */
  function BuildLoop(objects: map<string, ShmObject>, name: string, count: u64, envs: seq<AttemptEnv>, i: nat, ty: TypeInfo): (r: BuildRun)
    requires |envs| == MaxAttempts && i <= MaxAttempts
    ensures i <= r.attempts <= MaxAttempts
    ensures r.outcome == Thrown(ContentionTimeout) ==> r.attempts == MaxAttempts
    ensures i < MaxAttempts ==> i < r.attempts
    ensures r.outcome != Thrown(NotRoot)
    decreases MaxAttempts - i
  {
    if i == MaxAttempts then BuildRun(Thrown(ContentionTimeout), objects, MaxAttempts)
    else
      var a := Attempt(objects, name, count, envs[i], ty);
      match a.step
      case Retry => BuildLoop(a.objects, name, count, envs, i + 1, ty)
      case Done(outcome) => BuildRun(outcome, a.objects, i + 1)
  }

  /** `build`: the root check, then the loop. */
  function BuildSpec(objects: map<string, ShmObject>, isRoot: bool, name: string, count: u64, envs: seq<AttemptEnv>, ty: TypeInfo): (r: BuildRun)
    requires |envs| == MaxAttempts
    // only a caller that is not root gets the root error, and it touches nothing
    ensures r.outcome == Thrown(NotRoot) <==> !isRoot
    ensures !isRoot ==> r.objects == objects && r.attempts == 0
    // root: one to three attempts, all three when it times out
    ensures isRoot ==> 1 <= r.attempts <= MaxAttempts
    ensures r.outcome == Thrown(ContentionTimeout) ==> r.attempts == MaxAttempts
  {
    if !isRoot then BuildRun(Thrown(NotRoot), objects, 0)
    else BuildLoop(objects, name, count, envs, 0, ty)
  }

  /** A join nothing gets in the way of: every call succeeds and every poll
      reads the header as stored. */
  predicate QuietJoin(env: JoinEnv)
  {
    env.openFault.None? && env.headerMapFault.None? && env.polls == []
      && env.hugeMapFault.None? && env.plainMapFault.None?
  }

  /** A create whose system calls all succeed. */
  predicate QuietCreate(env: CreateEnv)
  {
    env.openFault.None? && env.truncateFault.None? && env.hugeMapFault.None? && env.plainMapFault.None?
  }

  /** Round trip: the segment one process creates is joined by the next
      process of the same element type, which reads back exactly the count,
      element size and file size the creator wrote, and maps that size. */
  lemma CreateThenJoin(objects: map<string, ShmObject>, name: string, count: u64,
                       create: CreateEnv, join: JoinEnv, ty: TypeInfo)
    requires CreateSpec(objects, name, count, create, ty).failure.None?
    requires QuietJoin(join)
    ensures var size := CreationSize(count, ty.cellSize).value;
      var j := JoinSpec(CreateSpec(objects, name, count, create, ty).objects, name, join, ty);
      && j.result == Success
      && j.header == PublishedHeader(count, ty.elemSize, size)
      && j.objects == CreateSpec(objects, name, count, create, ty).objects
  {
    var size := CreationSize(count, ty.cellSize).value;
    var created := CreateSpec(objects, name, count, create, ty).objects;
    assert created[name].header == PublishedHeader(count, ty.elemSize, size);
    assert created[name].size > 0;
    assert JoinReady(created, name, join) == Some(0);
  }

  /** A created segment is large enough for every cell its header announces. */
  lemma CreatedSegmentHoldsAllCells(objects: map<string, ShmObject>, name: string, count: u64, env: CreateEnv, ty: TypeInfo)
    requires CreateSpec(objects, name, count, env, ty).failure.None?
    ensures var obj := CreateSpec(objects, name, count, env, ty).objects[name];
      && obj.header.elementCount == count
      && obj.size == obj.header.alignedFileSize
      && obj.size % HugePageSize == 0
      && forall i: nat :: i < count ==> CellOffset(i, ty.cellSize) + ty.cellSize <= obj.size
  {
  }

  /** `build` on a name nobody has created, with nothing failing: created on
      the first attempt, with its header published. */
  lemma FreshNameIsCreated(objects: map<string, ShmObject>, name: string, count: u64, envs: seq<AttemptEnv>, ty: TypeInfo)
    requires |envs| == MaxAttempts && name !in objects
    requires envs[0].racer.None? && QuietCreate(envs[0].create)
    requires CreationSize(count, ty.cellSize).Some?
    ensures var size := CreationSize(count, ty.cellSize).value;
      BuildSpec(objects, true, name, count, envs, ty)
        == BuildRun(Created, objects[name := ShmObject(size, PublishedHeader(count, ty.elemSize, size))], 1)
  {
    assert JoinSpec(objects, name, envs[0].join, ty).result == FileNotFound;
    assert Attempt(objects, name, count, envs[0], ty).step == Done(Created);
  }

  /** `build` on a name whose segment is published with this element size,
      with nothing failing: joined on the first attempt, and nothing in the
      namespace changes (in particular not the count the creator chose). */
  lemma PublishedSegmentIsJoined(objects: map<string, ShmObject>, name: string, count: u64, envs: seq<AttemptEnv>, ty: TypeInfo)
    requires |envs| == MaxAttempts && name in objects
    requires objects[name].size >= HeaderSize
    requires IsReady(objects[name].header) && objects[name].header.elementSize == ty.elemSize
    requires QuietJoin(envs[0].join)
    ensures BuildSpec(objects, true, name, count, envs, ty) == BuildRun(Joined, objects, 1)
  {
    assert JoinReady(objects, name, envs[0].join) == Some(0);
    assert Attempt(objects, name, count, envs[0], ty).step == Done(Joined);
  }

  /** `build` on a name whose segment is ready with another element size:
      throws a type mismatch on the first attempt and leaves the segment. */
  lemma ForeignTypeIsRejected(objects: map<string, ShmObject>, name: string, count: u64, envs: seq<AttemptEnv>, ty: TypeInfo)
    requires |envs| == MaxAttempts && name in objects
    requires objects[name].size >= HeaderSize
    requires IsReady(objects[name].header) && objects[name].header.elementSize != ty.elemSize
    requires QuietJoin(envs[0].join)
    ensures BuildSpec(objects, true, name, count, envs, ty) == BuildRun(Thrown(TypeMismatchError), objects, 1)
  {
    assert JoinReady(objects, name, envs[0].join) == Some(0);
    assert Attempt(objects, name, count, envs[0], ty).step == Done(Thrown(TypeMismatchError));
  }

  /** `build` on a name whose segment never becomes ready (its creator died
      before publishing, possibly before even sizing it): the stale name is
      unlinked and, with nothing else failing, a fresh segment is created in
      its place on the next attempt. */
  lemma StaleSegmentIsReplaced(objects: map<string, ShmObject>, name: string, count: u64, envs: seq<AttemptEnv>, ty: TypeInfo)
    requires |envs| == MaxAttempts && name in objects
    requires objects[name].size == 0 || !IsReady(objects[name].header)
    requires QuietJoin(envs[0].join)
    requires envs[1].racer.None? && QuietCreate(envs[1].create)
    requires CreationSize(count, ty.cellSize).Some?
    ensures var size := CreationSize(count, ty.cellSize).value;
      BuildSpec(objects, true, name, count, envs, ty)
        == BuildRun(Created, (objects - {name})[name := ShmObject(size, PublishedHeader(count, ty.elemSize, size))], 2)
  {
    var stale := StoredHeader(objects[name]);
    assert NeverReady(envs[0].join.polls, stale) by {
      forall k | 0 <= k <= PollLimit
        ensures !IsReady(Polled(envs[0].join.polls, stale, k))
      {
      }
    }
    var a0 := Attempt(objects, name, count, envs[0], ty);
    assert a0 == AttemptRun(Retry, objects - {name});
    assert JoinSpec(objects - {name}, name, envs[1].join, ty).result == FileNotFound;
    assert Attempt(objects - {name}, name, count, envs[1], ty).step == Done(Created);
  }

  /** The input that shows the unguarded read: a name a peer has just created
      with its exclusive `shm_open` and not yet sized (or one a creator left so
      when it died). As written the joiner is killed; the join modelled here
      waits for it, then reports DATA_CORRUPT and unlinks the name, so that
      the next attempt can create it. */
  lemma EmptySegmentKillsJoiner(name: string, env: JoinEnv, ty: TypeInfo)
    requires QuietJoin(env)
    ensures var objects := map[name := ShmObject(0, ZeroHeader)];
      && JoinAsWritten(objects, name, env, ty) == None
      && JoinSpec(objects, name, env, ty).result == DataCorrupt
      && JoinSpec(objects, name, env, ty).objects == map[]
  {
    var objects := map[name := ShmObject(0, ZeroHeader)];
    assert objects - {name} == map[];
    assert NeverReady(env.polls, StoredHeader(objects[name])) by {
      forall k | 0 <= k <= PollLimit
        ensures !IsReady(Polled(env.polls, StoredHeader(objects[name]), k))
      {
      }
    }
  }

  /** Two creators race: this one's join found nothing, a peer created the
      segment before this one's exclusive open. The attempt is retried (EEXIST),
      and the peer's segment is left as the peer made it. */
  lemma LosingCreatorRetries(objects: map<string, ShmObject>, name: string, count: u64, env: AttemptEnv, ty: TypeInfo)
    requires name !in objects && env.racer.Some?
    requires CreationSize(count, ty.cellSize).Some?
    ensures Attempt(objects, name, count, env, ty) == AttemptRun(Retry, objects[name := env.racer.value])
  {
    assert JoinSpec(objects, name, env.join, ty).result == FileNotFound;
  }

  /** `build` touches no name but its own. */
  lemma {:induction false} BuildTouchesOnlyItsName(objects: map<string, ShmObject>, name: string, count: u64,
                                                   envs: seq<AttemptEnv>, i: nat, ty: TypeInfo, other: string)
    requires |envs| == MaxAttempts && i <= MaxAttempts && other != name
    ensures var r := BuildLoop(objects, name, count, envs, i, ty).objects;
      (other in r <==> other in objects) && (other in objects ==> r[other] == objects[other])
    decreases MaxAttempts - i
  {
    if i < MaxAttempts {
      var a := Attempt(objects, name, count, envs[i], ty);
      if a.step.Retry? {
        BuildTouchesOnlyItsName(a.objects, name, count, envs, i + 1, ty, other);
      }
    }
  }

  /** `build` throws the contention timeout exactly when each of its three
      attempts ends in a retry. */
  lemma TimeoutIffEveryAttemptRetries(objects: map<string, ShmObject>, name: string, count: u64, envs: seq<AttemptEnv>, ty: TypeInfo)
    requires |envs| == MaxAttempts
    ensures var a0 := Attempt(objects, name, count, envs[0], ty);
      var a1 := Attempt(a0.objects, name, count, envs[1], ty);
      var a2 := Attempt(a1.objects, name, count, envs[2], ty);
      var timedOut := BuildSpec(objects, true, name, count, envs, ty).outcome == Thrown(ContentionTimeout);
      timedOut <==> a0.step == Retry && a1.step == Retry && a2.step == Retry
  {
    var a0 := Attempt(objects, name, count, envs[0], ty);
    var a1 := Attempt(a0.objects, name, count, envs[1], ty);
    var a2 := Attempt(a1.objects, name, count, envs[2], ty);
    assert BuildLoop(a1.objects, name, count, envs, 2, ty).outcome == Thrown(ContentionTimeout) <==> a2.step == Retry;
    assert BuildLoop(a0.objects, name, count, envs, 1, ty).outcome == Thrown(ContentionTimeout) <==> a1.step == Retry && a2.step == Retry;
  }

  /** The wait for the magic in `try_join_existing`: reads the header for
      `wait_count` = 0, 1, ... until it reads ready or the count passes
      `PollLimit`. Reports the poll that saw the magic, if one did. */
  method WaitForMagic(polls: seq<ShmHeader>, stored: ShmHeader) returns (ready: bool, waitCount: nat)
    ensures ready <==> FirstReady(polls, stored, 0).Some?
    ensures ready ==> FirstReady(polls, stored, 0) == Some(waitCount)
  {
    waitCount := 0;
    while !IsReady(Polled(polls, stored, waitCount))
      invariant 0 <= waitCount <= PollLimit
      invariant FirstReady(polls, stored, waitCount) == FirstReady(polls, stored, 0)
      decreases PollLimit - waitCount
    {
      waitCount := waitCount + 1;
      if waitCount > PollLimit {
        return false, waitCount;
      }
    }
    ready := true;
  }

  /** The creator's stores into the header of `name` before the fence: the
      zeroing construction and the three fields. The magic still reads 0. */
  method WriteHeaderFields(ns: ShmSystem, name: string, count: u64, elemSize: u64, alignedSize: u64)
    requires ns.Valid() && name in ns.objects
    modifies ns
    ensures ns.Valid()
    ensures ns.objects == old(ns.objects)[name := old(ns.objects)[name].(header := ShmHeader(0, count, elemSize, alignedSize))]
    ensures ns.log == old(ns.log) + HeaderWrites(CreatorStores(count, elemSize, alignedSize)[..4])
    ensures ns.fds == old(ns.fds) && ns.mappings == old(ns.mappings) && ns.errno == old(ns.errno)
  {
    assert HeaderWrites(CreatorStores(count, elemSize, alignedSize)[..4]) ==
      [HeaderWrite(Construct), HeaderWrite(SetElementCount(count)), HeaderWrite(SetElementSize(elemSize)),
       HeaderWrite(SetAlignedSize(alignedSize))];
    ns.StoreHeader(name, Construct);
    ns.StoreHeader(name, SetElementCount(count));
    ns.StoreHeader(name, SetElementSize(elemSize));
    ns.StoreHeader(name, SetAlignedSize(alignedSize));
  }

  /** All of the creator's stores into the header of `name`, in program
      order: the fields, the release fence, then the magic. */
  method PublishHeader(ns: ShmSystem, name: string, count: u64, elemSize: u64, alignedSize: u64)
    requires ns.Valid() && name in ns.objects
    modifies ns
    ensures ns.Valid()
    ensures ns.objects == old(ns.objects)[name := old(ns.objects)[name].(header := PublishedHeader(count, elemSize, alignedSize))]
    ensures ns.log == old(ns.log) + HeaderWrites(CreatorStores(count, elemSize, alignedSize))
    ensures ns.fds == old(ns.fds) && ns.mappings == old(ns.mappings) && ns.errno == old(ns.errno)
  {
    ghost var ss := CreatorStores(count, elemSize, alignedSize);
    assert HeaderWrites(ss) == HeaderWrites(ss[..4]) + [HeaderWrite(ReleaseFence), HeaderWrite(SetMagic(ReadyMagic))];
    WriteHeaderFields(ns, name, count, elemSize, alignedSize);
    ns.StoreHeader(name, ReleaseFence);
    ns.StoreHeader(name, SetMagic(ReadyMagic));
  }

  /** Unmapping what was just mapped leaves the mappings as they were. */
  lemma UnmapFresh(m: map<nat, Mapping>, addr: nat, v: Mapping)
    requires addr !in m
    ensures m[addr := v] - {addr} == m
  {
  }

  class MemoryStorage<T> {
    const ty: TypeInfo
    const view: SharedDataView<T>
    var storageName: string
    var shmFd: int
    /** `mapped_ptr`, as an address; 0 is `nullptr`. */
    var mappedPtr: nat
    var mappedSize: u64

    constructor (elemSize: u64, elemAlign: nat)
      requires 1 <= elemAlign <= CacheLineSize && CacheLineSize % elemAlign == 0
      requires CellSize(elemSize, elemAlign) < U64Limit
      ensures ty == TypeInfo(elemSize, CellSize(elemSize, elemAlign))
      ensures storageName == "" && shmFd == -1 && mappedPtr == 0 && mappedSize == 0
      ensures fresh(view) && view.dataAddr == 0 && view.cellSize == ty.cellSize
    {
      ty := TypeInfo(elemSize, CellSize(elemSize, elemAlign));
      view := new SharedDataView(CellSize(elemSize, elemAlign), []);
      storageName := "";
      shmFd := -1;
      mappedPtr := 0;
      mappedSize := 0;
    }

    /** `map_memory_segment`: a shared read-write mapping of the whole
        descriptor, asking for huge pages when `useHugePage`; 0 on failure. */
    method MapMemorySegment(ns: ShmSystem, size: u64, useHugePage: bool, fault: Option<Errno>) returns (ptr: nat)
      requires ns.Valid() && shmFd in ns.fds
      modifies ns
      ensures ns.Valid()
      ensures ns.log == old(ns.log) + [Map(size, useHugePage)]
      ensures ns.objects == old(ns.objects) && ns.fds == old(ns.fds)
      ensures ptr == 0 <==> fault.Some?
      ensures ptr != 0 ==> ptr !in old(ns.mappings) && ns.mappings == old(ns.mappings)[ptr := Mapping(ns.fds[shmFd], size, useHugePage)]
      ensures ptr == 0 ==> ns.mappings == old(ns.mappings) && ns.errno == fault.value
    {
      ptr := ns.Mmap(shmFd, size, useHugePage, fault);
    }

    /** The whole-segment mapping both `try_join_existing` and `try_create_new`
        make: huge pages first, then plain pages once if that fails. */
    method MapWithFallback(ns: ShmSystem, size: u64, hugeFault: Option<Errno>, plainFault: Option<Errno>) returns (ptr: nat)
      requires ns.Valid() && shmFd in ns.fds
      modifies ns
      ensures ns.Valid()
      ensures ns.log == old(ns.log) + [Map(size, true)] + (if hugeFault.Some? then [Map(size, false)] else [])
      ensures ns.objects == old(ns.objects) && ns.fds == old(ns.fds)
      ensures ptr == 0 <==> hugeFault.Some? && plainFault.Some?
      ensures ptr != 0 ==> ptr !in old(ns.mappings) && ns.mappings == old(ns.mappings)[ptr := Mapping(ns.fds[shmFd], size, hugeFault.None?)]
      ensures ptr == 0 ==> ns.mappings == old(ns.mappings) && ns.errno == plainFault.value
    {
      ptr := MapMemorySegment(ns, size, true, hugeFault);
      if ptr == 0 {
        ptr := MapMemorySegment(ns, size, false, plainFault);
      }
    }

    /** `try_join_existing`. */
    method TryJoinExisting(ns: ShmSystem, env: JoinEnv) returns (r: JoinResult)
      requires ns.Valid()
      modifies this`shmFd, this`mappedPtr, this`mappedSize, view`dataAddr, ns
      ensures ns.Valid()
      ensures r == JoinSpec(old(ns.objects), storageName, env, ty).result
      ensures ns.objects == JoinSpec(old(ns.objects), storageName, env, ty).objects
      // no descriptor: the descriptor field is -1 and nothing else changed
      ensures !JoinOpens(old(ns.objects), storageName, env) ==>
        && shmFd == -1 && ns.fds == old(ns.fds) && ns.mappings == old(ns.mappings)
        && ns.log == old(ns.log) + [OpenExisting(storageName)]
      // corrupt or mismatched: header mapping released, descriptor closed but still in the field
      ensures r == DataCorrupt || r == TypeMismatch ==>
        && shmFd != -1 && shmFd !in ns.fds && ns.mappings == old(ns.mappings)
        && ns.log == old(ns.log) + [OpenExisting(storageName)] + [Map(MinMapSize, false)] + [Unmap(MinMapSize)] + [CloseFd]
                   + (if r == DataCorrupt then [Unlink(storageName)] else [])
      // joined: the full size read from the header is mapped, huge pages first, plain pages once as a fallback
      ensures r == Success ==>
        var h := JoinSpec(old(ns.objects), storageName, env, ty).header;
        && shmFd in ns.fds && ns.fds[shmFd] == storageName
        && mappedSize == h.alignedFileSize
        && mappedPtr !in old(ns.mappings)
        && ns.mappings == old(ns.mappings)[mappedPtr := Mapping(storageName, h.alignedFileSize, env.hugeMapFault.None?)]
        && view.dataAddr == mappedPtr + HeaderSize
        && ns.log == old(ns.log) + [OpenExisting(storageName)] + [Map(MinMapSize, false)] + [Unmap(MinMapSize)] + [Map(h.alignedFileSize, true)]
                     + (if env.hugeMapFault.Some? then [Map(h.alignedFileSize, false)] else [])
      ensures r != Success ==> mappedSize == old(mappedSize) && view.dataAddr == old(view.dataAddr)
      // any failure leaves no descriptor open and no mapping behind
      ensures r != Success ==> shmFd !in ns.fds && ns.mappings == old(ns.mappings)
    {
      shmFd := ns.ShmOpen(storageName, false, env.openFault);
      if shmFd == -1 {
        if ns.errno == ENOENT {
          return FileNotFound;
        }
        return SystemError;
      }

      // map just the header
      ghost var before := ns.mappings;
      var tempPtr := MapMemorySegment(ns, MinMapSize, false, env.headerMapFault);
      if tempPtr == 0 {
        ns.Close(shmFd);
        return SystemError;
      }
      UnmapFresh(before, tempPtr, ns.mappings[tempPtr]);

      r := AwaitReadyAndMap(ns, env, tempPtr);
    }

    /** The part of `try_join_existing` after the header is mapped at `tempPtr`:
        wait for the magic, check the element size, then swap the header
        mapping for a mapping of the whole segment. */
    method AwaitReadyAndMap(ns: ShmSystem, env: JoinEnv, tempPtr: nat) returns (r: JoinResult)
      requires ns.Valid() && JoinOpens(ns.objects, storageName, env) && env.headerMapFault.None?
      requires shmFd in ns.fds && ns.fds[shmFd] == storageName && tempPtr in ns.mappings
      modifies this`mappedPtr, this`mappedSize, view`dataAddr, ns
      ensures ns.Valid()
      ensures r == JoinSpec(old(ns.objects), storageName, env, ty).result
      ensures ns.objects == JoinSpec(old(ns.objects), storageName, env, ty).objects
      ensures r != Success ==> shmFd !in ns.fds && ns.mappings == old(ns.mappings) - {tempPtr}
      ensures r == DataCorrupt || r == TypeMismatch ==>
        ns.log == old(ns.log) + [Unmap(MinMapSize)] + [CloseFd] + (if r == DataCorrupt then [Unlink(storageName)] else [])
      ensures r == Success ==>
        var h := JoinSpec(old(ns.objects), storageName, env, ty).header;
        && shmFd in ns.fds && ns.fds[shmFd] == storageName
        && mappedSize == h.alignedFileSize
        && mappedPtr !in old(ns.mappings) - {tempPtr}
        && ns.mappings == (old(ns.mappings) - {tempPtr})[mappedPtr := Mapping(storageName, h.alignedFileSize, env.hugeMapFault.None?)]
        && view.dataAddr == mappedPtr + HeaderSize
        && ns.log == old(ns.log) + [Unmap(MinMapSize)] + [Map(h.alignedFileSize, true)]
                     + (if env.hugeMapFault.Some? then [Map(h.alignedFileSize, false)] else [])
      ensures r != Success ==> mappedSize == old(mappedSize) && view.dataAddr == old(view.dataAddr)
    {
      // wait for the creator to publish the magic; an object not sized yet
      // is checked for first and reads as not ready
      var stored := StoredHeader(ns.objects[storageName]);
      var ready, waitCount := WaitForMagic(env.polls, stored);
      if !ready {
        ns.Munmap(tempPtr, MinMapSize);
        ns.Close(shmFd);
        ns.ShmUnlink(storageName);
        return DataCorrupt;
      }

      var header := Polled(env.polls, stored, waitCount);
      if header.elementSize != ty.elemSize {
        ns.Munmap(tempPtr, MinMapSize);
        ns.Close(shmFd);
        return TypeMismatch;
      }

      // replace the header mapping by a mapping of the whole segment
      ns.Munmap(tempPtr, MinMapSize);
      mappedPtr := MapWithFallback(ns, header.alignedFileSize, env.hugeMapFault, env.plainMapFault);
      if mappedPtr == 0 {
        ns.Close(shmFd);
        return SystemError;
      }

      mappedSize := header.alignedFileSize;
      view.Init(mappedPtr);
      return Success;
    }

    /** `try_create_new(count)`, with the size overflow checked before anything
        is created (the source does not check it). */
    method TryCreateNew(ns: ShmSystem, count: u64, env: CreateEnv) returns (ok: bool)
      requires ns.Valid()
      modifies this`shmFd, this`mappedPtr, this`mappedSize, view`dataAddr, ns
      ensures ns.Valid()
      ensures ok == CreateSpec(old(ns.objects), storageName, count, env, ty).failure.None?
      ensures ns.objects == CreateSpec(old(ns.objects), storageName, count, env, ty).objects
      ensures !ok ==> ns.errno == CreateSpec(old(ns.objects), storageName, count, env, ty).failure.value
      // the name was created, then sizing or both mappings failed: it is unlinked, last
      ensures !ok && |ns.log| > |old(ns.log)| + 1 ==>
        shmFd !in ns.fds && ns.log[|ns.log| - 1] == Unlink(storageName)
      // created: sized, mapped (huge pages first, plain pages once as a fallback), header written with the magic last
      ensures ok ==>
        var size := CreationSize(count, ty.cellSize).value;
        && shmFd in ns.fds && ns.fds[shmFd] == storageName
        && mappedSize == size
        && mappedPtr !in old(ns.mappings)
        && ns.mappings == old(ns.mappings)[mappedPtr := Mapping(storageName, size, env.hugeMapFault.None?)]
        && view.dataAddr == mappedPtr + HeaderSize
        && ns.log == old(ns.log) + [OpenExclusive(storageName)] + [Truncate(size)] + [Map(size, true)]
                     + (if env.hugeMapFault.Some? then [Map(size, false)] else [])
                     + HeaderWrites(CreatorStores(count, ty.elemSize, size))
      ensures !ok ==> mappedSize == old(mappedSize) && view.dataAddr == old(view.dataAddr)
    {
      var size := CreationSize(count, ty.cellSize);
      if size.None? {
        ns.errno := EOVERFLOW;
        return false;
      }
      var alignedSize := size.value;

      shmFd := ns.ShmOpen(storageName, true, env.openFault);
      if shmFd == -1 {
        return false;
      }

      ok := SizeMapAndPublish(ns, count, alignedSize, env);
    }

    /** The part of `try_create_new` after the exclusive open: size the object,
        map it, write the header; on failure close the descriptor and unlink
        the name. */
    method SizeMapAndPublish(ns: ShmSystem, count: u64, alignedSize: u64, env: CreateEnv) returns (ok: bool)
      requires ns.Valid() && shmFd in ns.fds && ns.fds[shmFd] == storageName && storageName in ns.objects
      modifies this`mappedPtr, this`mappedSize, view`dataAddr, ns
      ensures ns.Valid()
      ensures ok == (env.truncateFault.None? && (env.hugeMapFault.None? || env.plainMapFault.None?))
      ensures !ok ==>
        && ns.objects == old(ns.objects) - {storageName}
        && ns.errno == (if env.truncateFault.Some? then env.truncateFault.value else env.plainMapFault.value)
        && shmFd !in ns.fds && |ns.log| > |old(ns.log)| && ns.log[|ns.log| - 1] == Unlink(storageName)
      ensures ok ==>
        && ns.objects == old(ns.objects)[storageName := ShmObject(alignedSize, PublishedHeader(count, ty.elemSize, alignedSize))]
        && shmFd in ns.fds && ns.fds[shmFd] == storageName
        && mappedSize == alignedSize
        && mappedPtr !in old(ns.mappings)
        && ns.mappings == old(ns.mappings)[mappedPtr := Mapping(storageName, alignedSize, env.hugeMapFault.None?)]
        && view.dataAddr == mappedPtr + HeaderSize
        && ns.log == old(ns.log) + [Truncate(alignedSize)] + [Map(alignedSize, true)]
                     + (if env.hugeMapFault.Some? then [Map(alignedSize, false)] else [])
                     + HeaderWrites(CreatorStores(count, ty.elemSize, alignedSize))
      ensures !ok ==> mappedSize == old(mappedSize) && view.dataAddr == old(view.dataAddr)
    {
      var truncated := ns.Ftruncate(shmFd, alignedSize, env.truncateFault);
      if !truncated {
        ns.Close(shmFd);
        ns.ShmUnlink(storageName);
        return false;
      }

      mappedPtr := MapWithFallback(ns, alignedSize, env.hugeMapFault, env.plainMapFault);
      if mappedPtr == 0 {
        ns.Close(shmFd);
        ns.ShmUnlink(storageName);
        return false;
      }
      mappedSize := alignedSize;

      PublishHeader(ns, storageName, count, ty.elemSize, alignedSize);
      view.Init(mappedPtr);
      return true;
    }

    /** One iteration of the `build` loop, on the name already stored. */
    method AttemptOnce(ns: ShmSystem, count: u64, env: AttemptEnv) returns (step: Step)
      requires ns.Valid()
      modifies this`shmFd, this`mappedPtr, this`mappedSize, view`dataAddr, ns
      ensures ns.Valid()
      ensures step == Attempt(old(ns.objects), storageName, count, env, ty).step
      ensures ns.objects == Attempt(old(ns.objects), storageName, count, env, ty).objects
      ensures step == Done(Joined) || step == Done(Created) ==>
        && shmFd in ns.fds && ns.fds[shmFd] == storageName
        && mappedPtr in ns.mappings && ns.mappings[mappedPtr].name == storageName
        && ns.mappings[mappedPtr].size == mappedSize
        && view.dataAddr == mappedPtr + HeaderSize
      ensures step == Done(Created) ==>
        && ns.objects[storageName] == ShmObject(mappedSize, PublishedHeader(count, ty.elemSize, mappedSize))
        && mappedSize == CreationSize(count, ty.cellSize).value
    {
      var joined := TryJoinExisting(ns, env.join);
      if joined == Success {
        return Done(Joined);
      }
      if joined == TypeMismatch {
        return Done(Thrown(TypeMismatchError));
      }
      if joined == DataCorrupt {
        return Retry;
      }

      if env.racer.Some? && storageName !in ns.objects {
        ns.PeerCreates(storageName, env.racer.value);
      }
      var created := TryCreateNew(ns, count, env.create);
      if created {
        return Done(Created);
      }
      if ns.errno == EEXIST {
        return Retry;
      }
      return Done(Thrown(SystemFailure(ns.errno)));
    }

    /** `build(storage_name, requested_count)`. */
    method Build(ns: ShmSystem, name: string, requestedCount: u64, isRoot: bool, envs: seq<AttemptEnv>) returns (outcome: BuildOutcome)
      requires ns.Valid() && |envs| == MaxAttempts && view.cellSize == ty.cellSize
      modifies this, view`dataAddr, ns
      ensures ns.Valid()
      ensures outcome == BuildSpec(old(ns.objects), isRoot, name, requestedCount, envs, ty).outcome
      ensures ns.objects == BuildSpec(old(ns.objects), isRoot, name, requestedCount, envs, ty).objects
      ensures isRoot ==> storageName == name
      // either way it returns, the segment is open and mapped and the view points into it
      ensures outcome == Joined || outcome == Created ==>
        && shmFd in ns.fds && ns.fds[shmFd] == name
        && mappedPtr in ns.mappings && ns.mappings[mappedPtr].name == name
        && ns.mappings[mappedPtr].size == mappedSize
        && view.dataAddr == mappedPtr + HeaderSize
      ensures outcome == Created ==>
        && ns.objects[name] == ShmObject(mappedSize, PublishedHeader(requestedCount, ty.elemSize, mappedSize))
        && mappedSize == CreationSize(requestedCount, ty.cellSize).value
      // created: every cell the caller asked for lies inside the mapping
      ensures outcome == Created ==>
        forall i: nat :: i < requestedCount ==> view.CellAddress(i) + view.cellSize <= mappedPtr + mappedSize
    {
      if !isRoot {
        return Thrown(NotRoot);
      }
      storageName := name;

      for i := 0 to MaxAttempts
        invariant ns.Valid() && storageName == name
        invariant BuildLoop(ns.objects, name, requestedCount, envs, i, ty)
               == BuildLoop(old(ns.objects), name, requestedCount, envs, 0, ty)
      {
        var step := AttemptOnce(ns, requestedCount, envs[i]);
        if step.Done? {
          return step.outcome;
        }
      }
      return Thrown(ContentionTimeout);
    }
  }
}
