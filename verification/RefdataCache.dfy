/** One download for many processes (src/accounts/shared_refdata_cache.cpp over
    src/platform/file_lock.cpp): any number of processes run get_or_fetch for one key, interleaved
    at every file operation, and any of them may die at any point. Stale-lock takeover never fires.

    A process slot whose process died is taken by a new process. Lock nonces are numbers that are
    never given out twice. */
module RefdataCache {
  import opened Options

  /** The bounds of the two retry loops, the validator (one that is not set accepts everything),
      and whether an existing artifact may be unreadable at times. */
  datatype Config = Config(attempts: nat, publishTries: nat, valid: string -> bool, flaky: bool)

  datatype LockFile = LockFile(nonce: nat, written: bool)

  datatype Pc =
    | Idle
    | FastPath
    | Acquire(attempt: nat)
    | Lost(attempt: nat)
    | Writing(attempt: nat, nonce: nat)
    | Undo(attempt: nat, nonce: nat)
    | ReadBack(attempt: nat, nonce: nat)
    | DoubleCheck(nonce: nat)
    | Fetching(nonce: nat)
    | Fetched(nonce: nat, payload: string)
    | LastCheck(nonce: nat, payload: string)
    | Storing(nonce: nat, payload: string)
    | Publishing(nonce: nat, payload: string, tries: nat)
    | Releasing(nonce: nat, answer: Option<string>)
    | Removing(nonce: nat, answer: Option<string>)
    | Answered(answer: Option<string>)

  /** A download that was started: the artifact it was started over, and how many publishes there
      had been. */
  datatype Download = Download(over: Option<string>, publishes: nat)

  /** The files, the processes, and what has happened: payloads the source has delivered,
      downloads started, artifacts published, and answers given to callers. */
  datatype World = World(
    lock: Option<LockFile>,
    artifact: Option<string>,
    temps: map<nat, string>,
    procs: seq<Pc>,
    nextNonce: nat,
    delivered: set<string>,
    downloads: seq<Download>,
    publishes: seq<string>,
    answers: seq<string>)

  /** What a reader accepts. */
  predicate Usable(c: Config, a: Option<string>) {
    a.Some? && a.value != "" && c.valid(a.value)
  }

  // ---------------------------------------------------------------- steps

  function At(w: World, p: nat, pc: Pc): World
    requires p < |w.procs|
  {
    w.(procs := w.procs[p := pc])
  }

  /** Reading the artifact: `hit` if it is usable, `miss` if not, or if it cannot be read. */
  predicate ReadArtifact(c: Config, w: World, w': World, p: nat, hit: Option<string> -> Pc, miss: Pc)
    requires p < |w.procs|
  {
    || (Usable(c, w.artifact) && w' == At(w, p, hit(w.artifact)))
    || ((!Usable(c, w.artifact) || c.flaky) && w' == At(w, p, miss))
  }

  /** Create-exclusive: of all racing callers one creates the file. It may also just fail. */
  predicate Create(w: World, w': World, p: nat, attempt: nat)
    requires p < |w.procs|
  {
    || w' == At(w, p, Lost(attempt))
    || (w.lock.None?
        && w' == At(w, p, Writing(attempt, w.nextNonce))
                 .(lock := Some(LockFile(w.nextNonce, false)), nextNonce := w.nextNonce + 1))
  }

  predicate WriteLock(w: World, w': World, p: nat, attempt: nat, nonce: nat)
    requires p < |w.procs|
  {
    || w' == At(w, p, Undo(attempt, nonce))
    || (w.lock.Some? && w' == At(w, p, ReadBack(attempt, nonce)).(lock := Some(w.lock.value.(written := true))))
  }

  /** A lock file that could not be written is removed, if that works. */
  predicate UndoLock(w: World, w': World, p: nat, attempt: nat)
    requires p < |w.procs|
  {
    w' == At(w, p, Lost(attempt)) || w' == At(w, p, Lost(attempt)).(lock := None)
  }

  /** The read-back claims the lock only if the file carries our nonce; an unreadable file leaves
      an orphan behind. */
  predicate Claim(w: World, w': World, p: nat, attempt: nat, nonce: nat)
    requires p < |w.procs|
  {
    || w' == At(w, p, Lost(attempt))
    || (w.lock == Some(LockFile(nonce, true)) && w' == At(w, p, DoubleCheck(nonce)))
  }

  /** The double check under the lock; on a miss the download starts. */
  predicate Check(c: Config, w: World, w': World, p: nat, nonce: nat)
    requires p < |w.procs|
  {
    ReadArtifact(c, w.(downloads := w'.downloads), w', p, a => Releasing(nonce, a), Fetching(nonce))
    && w'.downloads ==
       if w'.procs[p] == Fetching(nonce) then w.downloads + [Download(w.artifact, |w.publishes|)] else w.downloads
  }

  predicate Fetch(w: World, w': World, p: nat, nonce: nat, delivered: Option<string>)
    requires p < |w.procs|
  {
    match delivered
    case None => w' == At(w, p, Releasing(nonce, None))
    case Some(b) => w' == At(w, p, Fetched(nonce, b)).(delivered := w.delivered + {b})
  }

  /** A payload that would be refused on reading is never published. */
  predicate Validate(c: Config, w: World, w': World, p: nat, nonce: nat, payload: string)
    requires p < |w.procs|
  {
    w' == At(w, p, if c.valid(payload) then LastCheck(nonce, payload) else Releasing(nonce, None))
  }

  /** Is the lock still ours? If that cannot be told, the publish is abandoned. */
  predicate StillOurs(w: World, w': World, p: nat, nonce: nat, payload: string)
    requires p < |w.procs|
  {
    || w' == At(w, p, Releasing(nonce, None))
    || (&& w.lock == Some(LockFile(nonce, true))
        && w' == At(w, p, Storing(nonce, payload)).(temps := w.temps[nonce := ""]))
  }

  /** The temporary file grows piece by piece; it counts as stored only when it is complete. */
  predicate Store(w: World, w': World, p: nat, nonce: nat, payload: string, size: nat)
    requires p < |w.procs|
  {
    || w' == At(w, p, Releasing(nonce, None)).(temps := w.temps - {nonce})
    || (size <= |payload| && w' == w.(temps := w.temps[nonce := payload[..size]]))
    || (nonce in w.temps && |w.temps[nonce]| == |payload| && w' == At(w, p, Publishing(nonce, payload, 0)))
  }

  /** The rename: whatever the temporary file holds becomes the artifact, or the rename fails and
      is tried again a bounded number of times. */
  predicate Publish(c: Config, w: World, w': World, p: nat, nonce: nat, payload: string, tries: nat)
    requires p < |w.procs|
  {
    || (nonce in w.temps
        && w' == At(w, p, Releasing(nonce, Some(payload)))
                 .(artifact := Some(w.temps[nonce]), temps := w.temps - {nonce},
                   publishes := w.publishes + [w.temps[nonce]]))
    || (tries + 1 < c.publishTries && w' == At(w, p, Publishing(nonce, payload, tries + 1)))
    || (tries + 1 >= c.publishTries && w' == At(w, p, Releasing(nonce, None)).(temps := w.temps - {nonce}))
  }

  /** Release removes the lock file only after having read our nonce in it. */
  predicate Release(w: World, w': World, p: nat, nonce: nat, answer: Option<string>)
    requires p < |w.procs|
  {
    || w' == At(w, p, Answered(answer))
    || (w.lock.Some? && w.lock.value.nonce == nonce && w.lock.value.written && w' == At(w, p, Removing(nonce, answer)))
  }

  predicate Remove(w: World, w': World, p: nat, answer: Option<string>)
    requires p < |w.procs|
  {
    w' == At(w, p, Answered(answer)) || w' == At(w, p, Answered(answer)).(lock := None)
  }

  /** We lost the race or the lock is held: read again, then retry or give up. */
  predicate Retry(c: Config, w: World, w': World, p: nat, attempt: nat)
    requires p < |w.procs|
  {
    ReadArtifact(c, w, w', p, a => Answered(a),
                 if attempt + 1 < c.attempts then Acquire(attempt + 1) else Answered(None))
  }

  predicate Answer(w: World, w': World, p: nat, answer: Option<string>)
    requires p < |w.procs|
  {
    w' == At(w, p, Idle).(answers := if answer.Some? then w.answers + [answer.value] else w.answers)
  }

  /** One step of process `p`. */
  ghost predicate Step(c: Config, w: World, w': World, p: nat)
    requires p < |w.procs|
  {
    match w.procs[p]
    case Idle => w' == At(w, p, FastPath)
    case FastPath => ReadArtifact(c, w, w', p, a => Answered(a), Acquire(0))
    case Acquire(k) => Create(w, w', p, k)
    case Lost(k) => Retry(c, w, w', p, k)
    case Writing(k, n) => WriteLock(w, w', p, k, n)
    case Undo(k, n) => UndoLock(w, w', p, k)
    case ReadBack(k, n) => Claim(w, w', p, k, n)
    case DoubleCheck(n) => Check(c, w, w', p, n)
    case Fetching(n) => exists delivered :: Fetch(w, w', p, n, delivered)
    case Fetched(n, b) => Validate(c, w, w', p, n, b)
    case LastCheck(n, b) => StillOurs(w, w', p, n, b)
    case Storing(n, b) => exists size :: Store(w, w', p, n, b, size)
    case Publishing(n, b, k) => Publish(c, w, w', p, n, b, k)
    case Releasing(n, a) => Release(w, w', p, n, a)
    case Removing(n, a) => Remove(w, w', p, a)
    case Answered(a) => Answer(w, w', p, a)
  }

  /** A process dies; its files stay as they are. */
  predicate Crash(w: World, w': World, p: nat)
    requires p < |w.procs|
  {
    w' == At(w, p, Idle)
  }

  ghost predicate Next(c: Config, w: World, w': World) {
    exists p :: 0 <= p < |w.procs| && (Step(c, w, w', p) || Crash(w, w', p))
  }

  /** No process has started; the artifact may be missing, corrupt, or already usable. */
  predicate Init(w: World) {
    && w.lock.None? && w.temps == map[] && w.nextNonce == 0
    && (forall p :: 0 <= p < |w.procs| ==> w.procs[p] == Idle)
    && w.delivered == {} && w.downloads == [] && w.publishes == [] && w.answers == []
  }

  ghost predicate IsRun(c: Config, ws: seq<World>) {
    && ws != [] && Init(ws[0])
    && forall i :: 0 <= i < |ws| - 1 ==> Next(c, ws[i], ws[i + 1])
  }

  // ---------------------------------------------------------------- mutual exclusion

  /** The nonce of the lock file a process has created and not given up. */
  function Holds(pc: Pc): Option<nat> {
    match pc
    case Writing(_, n) => Some(n)
    case Undo(_, n) => Some(n)
    case ReadBack(_, n) => Some(n)
    case DoubleCheck(n) => Some(n)
    case Fetching(n) => Some(n)
    case Fetched(n, _) => Some(n)
    case LastCheck(n, _) => Some(n)
    case Storing(n, _) => Some(n)
    case Publishing(n, _, _) => Some(n)
    case Releasing(n, _) => Some(n)
    case Removing(n, _) => Some(n)
    case _ => None
  }

  /** Between the start of a download and its publish. */
  predicate Downloading(pc: Pc) {
    pc.Fetching? || pc.Fetched? || pc.LastCheck? || pc.Storing? || pc.Publishing?
  }

  /** The payload a process is about to publish. */
  function InHand(pc: Pc): Option<string> {
    match pc
    case LastCheck(_, b) => Some(b)
    case Storing(_, b) => Some(b)
    case Publishing(_, b, _) => Some(b)
    case _ => None
  }

  function Pending(pc: Pc): Option<string> {
    match pc
    case Releasing(_, a) => a
    case Removing(_, a) => a
    case Answered(a) => a
    case _ => None
  }

  /** At most one process holds the lock, and the lock file carries its nonce. */
  ghost predicate Exclusive(w: World) {
    && (forall p | 0 <= p < |w.procs| ::
          Holds(w.procs[p]).Some? ==> w.lock.Some? && w.lock.value.nonce == Holds(w.procs[p]).value)
    && (forall p, q | 0 <= p < |w.procs| && 0 <= q < |w.procs| ::
          Holds(w.procs[p]).Some? && Holds(w.procs[q]).Some? ==> p == q)
  }

  /** What is about to be published is a payload that was delivered whole and is valid, and the
      temporary file holds a prefix of it, all of it when the rename is due. */
  ghost predicate Sound(c: Config, w: World, pc: Pc) {
    && (pc.Fetched? ==> pc.payload in w.delivered)
    && (InHand(pc).Some? ==> InHand(pc).value in w.delivered && c.valid(InHand(pc).value))
    && (pc.Storing? ==> pc.nonce in w.temps && w.temps[pc.nonce] <= pc.payload)
    && (pc.Publishing? ==> pc.nonce in w.temps && w.temps[pc.nonce] == pc.payload)
  }

  // ---------------------------------------------------------------- what one step can do

  predicate OnlyMoves(w: World, w': World, p: nat)
    requires p < |w.procs|
  {
    |w'.procs| == |w.procs| && w'.procs == w.procs[p := w'.procs[p]]
  }

  /** The lock file stays with its holder, is created by a process when there is none, or is
      removed by its holder. */
  predicate LockMoves(w: World, w': World, p: nat)
    requires p < |w.procs| == |w'.procs|
  {
    var before, after := Holds(w.procs[p]), Holds(w'.procs[p]);
    || (after == before && (w'.lock.Some? <==> w.lock.Some?)
        && (w.lock.Some? ==> w'.lock.value.nonce == w.lock.value.nonce))
    || (after.None? && w'.lock == w.lock)
    || (after.None? && before.Some? && w'.lock.None?)
    || (w.lock.None? && after.Some? && w'.lock == Some(LockFile(after.value, false)))
  }

  predicate Published(w: World, w': World, p: nat)
    requires p < |w.procs| == |w'.procs|
  {
    && w.procs[p].Publishing? && w.procs[p].nonce in w.temps
    && var b := w.temps[w.procs[p].nonce];
       && w'.artifact == Some(b) && w'.publishes == w.publishes + [b]
       && Holds(w'.procs[p]) == Holds(w.procs[p]) && !Downloading(w'.procs[p])
       && Pending(w'.procs[p]) == Some(w.procs[p].payload)
  }

  predicate Started(c: Config, w: World, w': World, p: nat)
    requires p < |w.procs| == |w'.procs|
  {
    && Holds(w.procs[p]).Some? && w'.procs[p].Fetching? && (!Usable(c, w.artifact) || c.flaky)
    && w'.downloads == w.downloads + [Download(w.artifact, |w.publishes|)]
    && w'.artifact == w.artifact && w'.publishes == w.publishes && w'.answers == w.answers
  }

  predicate Replied(w: World, w': World, p: nat)
    requires p < |w.procs| == |w'.procs|
  {
    && Pending(w.procs[p]).Some? && Pending(w'.procs[p]).None?
    && w'.answers == w.answers + [Pending(w.procs[p]).value]
    && w'.artifact == w.artifact && w'.publishes == w.publishes
  }

  /** The visible effect of one step: a publish, the start of a download, a reply, or none; an
      answer that is pending was pending before, has just been read, or has just been published. */
  predicate Effect(c: Config, w: World, w': World, p: nat)
    requires p < |w.procs| == |w'.procs|
  {
    && (|| (Published(w, w', p) && w'.answers == w.answers && w'.downloads == w.downloads)
        || (Started(c, w, w', p) && Pending(w'.procs[p]).None?)
        || (Replied(w, w', p) && w'.downloads == w.downloads && !Downloading(w'.procs[p]))
        || (&& w'.artifact == w.artifact && w'.publishes == w.publishes
            && w'.answers == w.answers && w'.downloads == w.downloads
            && (Downloading(w'.procs[p]) ==> Downloading(w.procs[p]))
            && (Pending(w'.procs[p]).Some? ==>
                  Pending(w'.procs[p]) == Pending(w.procs[p])
                  || (Usable(c, w.artifact) && Pending(w'.procs[p]) == w.artifact))))
    && w.delivered <= w'.delivered
    && (w'.temps == w.temps || Holds(w.procs[p]).Some?)
  }

  /** A process that does not hold the lock, and the lock file's own steps. */
  lemma LockStep(c: Config, w: World, w': World, p: nat)
    requires p < |w.procs| && Step(c, w, w', p)
    requires var pc := w.procs[p];
      pc.Idle? || pc.FastPath? || pc.Acquire? || pc.Lost? || pc.Writing? || pc.Undo? || pc.ReadBack? || pc.Answered?
    ensures OnlyMoves(w, w', p) && LockMoves(w, w', p) && Effect(c, w, w', p)
    ensures Sound(c, w', w'.procs[p])
  {
  }

  /** The steps of a process that has claimed the lock. */
  lemma HolderStep(c: Config, w: World, w': World, p: nat)
    requires p < |w.procs| && Step(c, w, w', p)
    requires var pc := w.procs[p];
      pc.DoubleCheck? || pc.Fetching? || pc.Fetched? || pc.LastCheck? || pc.Releasing? || pc.Removing?
    ensures OnlyMoves(w, w', p) && LockMoves(w, w', p) && Effect(c, w, w', p)
    ensures Sound(c, w, w.procs[p]) ==> Sound(c, w', w'.procs[p])
  {
  }

  lemma WriterStep(c: Config, w: World, w': World, p: nat)
    requires p < |w.procs| && Step(c, w, w', p)
    requires w.procs[p].Storing? || w.procs[p].Publishing?
    ensures OnlyMoves(w, w', p) && LockMoves(w, w', p) && Effect(c, w, w', p)
    ensures Sound(c, w, w.procs[p]) ==> Sound(c, w', w'.procs[p])
  {
    if w.procs[p].Storing? {
      var size :| Store(w, w', p, w.procs[p].nonce, w.procs[p].payload, size);
    }
  }

  lemma CrashStep(c: Config, w: World, w': World, p: nat)
    requires p < |w.procs| && Crash(w, w', p)
    ensures OnlyMoves(w, w', p) && LockMoves(w, w', p) && Effect(c, w, w', p)
    ensures Sound(c, w', w'.procs[p])
  {
  }

  lemma StepEffect(c: Config, w: World, w': World, p: nat)
    requires p < |w.procs| && (Step(c, w, w', p) || Crash(w, w', p))
    ensures OnlyMoves(w, w', p) && LockMoves(w, w', p) && Effect(c, w, w', p)
    ensures Sound(c, w, w.procs[p]) ==> Sound(c, w', w'.procs[p])
  {
    if Crash(w, w', p) {
      CrashStep(c, w, w', p);
    } else {
      match w.procs[p]
      case Storing(_, _) => WriterStep(c, w, w', p);
      case Publishing(_, _, _) => WriterStep(c, w, w', p);
      case DoubleCheck(_) => HolderStep(c, w, w', p);
      case Fetching(_) => HolderStep(c, w, w', p);
      case Fetched(_, _) => HolderStep(c, w, w', p);
      case LastCheck(_, _) => HolderStep(c, w, w', p);
      case Releasing(_, _) => HolderStep(c, w, w', p);
      case Removing(_, _) => HolderStep(c, w, w', p);
      case _ => LockStep(c, w, w', p);
    }
  }

  // ---------------------------------------------------------------- for any validator

  ghost predicate Safe(c: Config, w: World) {
    && Exclusive(w)
    && (forall p :: 0 <= p < |w.procs| ==> Sound(c, w, w.procs[p]))
    && (forall k :: 0 <= k < |w.publishes| ==> w.publishes[k] in w.delivered && c.valid(w.publishes[k]))
  }

  lemma NextIsSafe(c: Config, w: World, w': World, p: nat)
    requires Safe(c, w) && p < |w.procs|
    requires OnlyMoves(w, w', p) && LockMoves(w, w', p) && Effect(c, w, w', p)
    requires Sound(c, w', w'.procs[p])
    ensures Safe(c, w')
  {
    assert forall q :: 0 <= q < |w.procs| && q != p ==> w'.procs[q] == w.procs[q];
    assert Exclusive(w');
    forall q | 0 <= q < |w.procs|
      ensures Sound(c, w', w'.procs[q])
    {
      assert Sound(c, w, w.procs[q]);
    }
    if Published(w, w', p) {
      assert Sound(c, w, w.procs[p]);
    }
  }

  // ---------------------------------------------------------------- when nothing valid can be missed

  /** A published payload could be taken for a miss. */
  predicate Missable(c: Config, b: string) {
    c.flaky || b == ""
  }

  /** One download: nothing is downloaded over a usable artifact or after a publish, and all that
      callers were told, or are about to be told, is the artifact. */
  ghost predicate One(c: Config, w: World) {
    && (forall p :: 0 <= p < |w.procs| && Downloading(w.procs[p]) ==> !Usable(c, w.artifact))
    && (forall p :: 0 <= p < |w.procs| && Pending(w.procs[p]).Some? ==>
          Usable(c, w.artifact) && Pending(w.procs[p]) == w.artifact)
    && (w.answers != [] ==> Usable(c, w.artifact))
    && (forall k :: 0 <= k < |w.answers| ==> w.artifact == Some(w.answers[k]))
    && (w.publishes != [] ==> |w.publishes| == 1 && Usable(c, w.artifact))
    && (forall k :: 0 <= k < |w.downloads| ==> !Usable(c, w.downloads[k].over) && w.downloads[k].publishes == 0)
  }

  lemma NextIsOne(c: Config, w: World, w': World, p: nat)
    requires !c.flaky && !c.valid("") && Safe(c, w) && One(c, w) && p < |w.procs|
    requires OnlyMoves(w, w', p) && LockMoves(w, w', p) && Effect(c, w, w', p)
    ensures One(c, w')
    ensures Usable(c, w.artifact) ==> w'.artifact == w.artifact
  {
    assert forall q :: 0 <= q < |w.procs| && q != p ==> w'.procs[q] == w.procs[q];
    assert Sound(c, w, w.procs[p]);
    if Published(w, w', p) {
      assert Usable(c, w'.artifact);
      NothingSaidYet(c, w, p);
      NobodyElse(w, p);
    }
  }

  lemma NothingSaidYet(c: Config, w: World, p: nat)
    requires One(c, w) && p < |w.procs| && Downloading(w.procs[p])
    ensures w.answers == [] && w.publishes == []
    ensures forall q :: 0 <= q < |w.procs| ==> Pending(w.procs[q]).None?
  {
  }

  lemma NobodyElse(w: World, p: nat)
    requires Exclusive(w) && p < |w.procs| && Downloading(w.procs[p])
    ensures forall q :: 0 <= q < |w.procs| && q != p ==> !Downloading(w.procs[q])
  {
  }

  lemma RunFront(c: Config, ws: seq<World>)
    requires IsRun(c, ws) && |ws| > 1
    ensures IsRun(c, ws[..|ws| - 1]) && Next(c, ws[|ws| - 2], ws[|ws| - 1])
  {
    assert Next(c, ws[|ws| - 2], ws[|ws| - 2 + 1]);
  }

  lemma {:induction false} RunIsSafe(c: Config, ws: seq<World>)
    requires IsRun(c, ws)
    ensures Safe(c, ws[|ws| - 1])
    ensures !c.flaky && !c.valid("") ==> One(c, ws[|ws| - 1])
  {
    if |ws| > 1 {
      RunFront(c, ws);
      RunIsSafe(c, ws[..|ws| - 1]);
      var w, w' := ws[|ws| - 2], ws[|ws| - 1];
      var p :| 0 <= p < |w.procs| && (Step(c, w, w', p) || Crash(w, w', p));
      StepEffect(c, w, w', p);
      NextIsSafe(c, w, w', p);
      if !c.flaky && !c.valid("") {
        NextIsOne(c, w, w', p);
      }
    }
  }

  /** Over every interleaving and crash, with any validator: at most one process at a time is
      between the creation of its lock file and giving it up, so at most one downloads or
      publishes; and every artifact that is ever published is a payload that was delivered whole
      and passed the validator. */
  lemma OneHolderAndWholeArtifacts(c: Config, ws: seq<World>)
    requires IsRun(c, ws)
    ensures var w := ws[|ws| - 1];
      && (forall p, q | 0 <= p < |w.procs| && 0 <= q < |w.procs| ::
            Holds(w.procs[p]).Some? && Holds(w.procs[q]).Some? ==> p == q)
      && (forall k :: 0 <= k < |w.publishes| ==> w.publishes[k] in w.delivered && c.valid(w.publishes[k]))
  {
    RunIsSafe(c, ws);
  }

  /** Over every interleaving and crash, with reads that do not fail and a validator that refuses
      the empty text: no download is started over a usable artifact or after a publish, at most
      one artifact is published, and all callers that get an answer get the same bytes. */
  lemma OneDownload(c: Config, ws: seq<World>)
    requires IsRun(c, ws) && !c.flaky && !c.valid("")
    ensures var w := ws[|ws| - 1];
      && |w.publishes| <= 1
      && (forall k :: 0 <= k < |w.downloads| ==> !Usable(c, w.downloads[k].over) && w.downloads[k].publishes == 0)
      && (forall i, j :: 0 <= i < |w.answers| && 0 <= j < |w.answers| ==> w.answers[i] == w.answers[j])
  {
    RunIsSafe(c, ws);
  }

  /** Under the same conditions the first usable artifact stays, and it is what everyone is told. */
  lemma {:induction false} FirstArtifactStays(c: Config, ws: seq<World>, i: nat)
    requires IsRun(c, ws) && !c.flaky && !c.valid("") && i < |ws| && Usable(c, ws[i].artifact)
    ensures var w := ws[|ws| - 1];
      w.artifact == ws[i].artifact && forall k :: 0 <= k < |w.answers| ==> Some(w.answers[k]) == w.artifact
    decreases |ws|
  {
    RunIsSafe(c, ws);
    if i < |ws| - 1 {
      RunFront(c, ws);
      FirstArtifactStays(c, ws[..|ws| - 1], i);
      LastStepKeepsArtifact(c, ws);
    }
  }

  lemma LastStepKeepsArtifact(c: Config, ws: seq<World>)
    requires IsRun(c, ws) && !c.flaky && !c.valid("") && |ws| > 1
    ensures Usable(c, ws[|ws| - 2].artifact) ==> ws[|ws| - 1].artifact == ws[|ws| - 2].artifact
  {
    RunFront(c, ws);
    RunIsSafe(c, ws[..|ws| - 1]);
    var w, w' := ws[|ws| - 2], ws[|ws| - 1];
    var p :| 0 <= p < |w.procs| && (Step(c, w, w', p) || Crash(w, w', p));
    StepEffect(c, w, w', p);
    NextIsOne(c, w, w', p);
  }

  // ---------------------------------------------------------------- and only then

  ghost predicate Reachable(c: Config, w: World) {
    exists ws :: IsRun(c, ws) && ws[|ws| - 1] == w
  }

  lemma Reach(c: Config, w: World, w': World, p: nat)
    requires Reachable(c, w) && p < |w.procs| && Step(c, w, w', p)
    ensures Reachable(c, w')
  {
    var ws :| IsRun(c, ws) && ws[|ws| - 1] == w;
    assert Next(c, w, w');
    assert IsRun(c, ws + [w']);
  }

  /** A single process goes from an acquisition with no lock file to the start of a download. */
  lemma ReachDownload(c: Config, w: World) returns (w': World)
    requires Reachable(c, w) && w.procs == [Acquire(0)] && w.lock.None?
    requires !Usable(c, w.artifact) || c.flaky
    ensures Reachable(c, w')
    ensures w' == w.(procs := [Fetching(w.nextNonce)], lock := Some(LockFile(w.nextNonce, true)),
                     nextNonce := w.nextNonce + 1, downloads := w.downloads + [Download(w.artifact, |w.publishes|)])
  {
    var n := w.nextNonce;
    var w2 := ReachLocked(c, w);
    var w3 := w2.(procs := [DoubleCheck(n)]);
    Reach(c, w2, w3, 0);
    w' := w3.(procs := [Fetching(n)], downloads := w.downloads + [Download(w.artifact, |w.publishes|)]);
    Reach(c, w3, w', 0);
  }

  lemma ReachLocked(c: Config, w: World) returns (w2: World)
    requires Reachable(c, w) && w.procs == [Acquire(0)] && w.lock.None?
    ensures Reachable(c, w2)
    ensures w2 == w.(procs := [ReadBack(0, w.nextNonce)], lock := Some(LockFile(w.nextNonce, true)),
                     nextNonce := w.nextNonce + 1)
  {
    var n := w.nextNonce;
    var w1 := w.(procs := [Writing(0, n)], lock := Some(LockFile(n, false)), nextNonce := n + 1);
    Reach(c, w, w1, 0);
    w2 := w1.(procs := [ReadBack(0, n)], lock := Some(LockFile(n, true)));
    Reach(c, w1, w2, 0);
  }

  /** From there, with `b` delivered, to the point where it is written. */
  lemma ReachStore(c: Config, w: World, n: nat, b: string) returns (w': World)
    requires Reachable(c, w) && w.procs == [Fetching(n)] && w.lock == Some(LockFile(n, true)) && w.temps == map[]
    requires c.valid(b)
    ensures Reachable(c, w')
    ensures w' == w.(procs := [Storing(n, b)], temps := map[n := ""], delivered := w.delivered + {b})
  {
    var w1 := w.(procs := [Fetched(n, b)], delivered := w.delivered + {b});
    assert Fetch(w, w1, 0, n, Some(b));
    Reach(c, w, w1, 0);
    var w2 := w1.(procs := [LastCheck(n, b)]);
    Reach(c, w1, w2, 0);
    w' := w2.(procs := [Storing(n, b)], temps := map[n := ""]);
    Reach(c, w2, w', 0);
  }

  /** The temporary file is written in one piece. */
  lemma ReachRename(c: Config, w3: World, n: nat, b: string) returns (w': World)
    requires Reachable(c, w3) && w3.procs == [Storing(n, b)] && w3.temps == map[n := ""]
    ensures Reachable(c, w') && w' == w3.(procs := [Publishing(n, b, 0)], temps := map[n := b])
  {
    var w4 := w3.(temps := map[n := b]);
    assert b[..|b|] == b;
    assert Store(w3, w4, 0, n, b, |b|);
    Reach(c, w3, w4, 0);
    w' := w4.(procs := [Publishing(n, b, 0)]);
    assert Store(w4, w', 0, n, b, 0);
    Reach(c, w4, w', 0);
  }

  /** A publish, and back to where the process may start another call. */
  lemma ReachAnswer(c: Config, w5: World, n: nat, b: string) returns (w': World)
    requires Reachable(c, w5) && w5.procs == [Publishing(n, b, 0)]
    requires w5.lock == Some(LockFile(n, true)) && w5.temps == map[n := b]
    ensures Reachable(c, w')
    ensures w' == w5.(procs := [Idle], lock := None, artifact := Some(b), temps := map[],
                      publishes := w5.publishes + [b], answers := w5.answers + [b])
  {
    var w6 := w5.(procs := [Releasing(n, Some(b))], artifact := Some(b), temps := map[],
                  publishes := w5.publishes + [b]);
    Reach(c, w5, w6, 0);
    var w8 := ReachUnlocked(c, w6, n, b);
    w' := w8.(procs := [Idle], answers := w5.answers + [b]);
    Reach(c, w8, w', 0);
  }

  lemma ReachUnlocked(c: Config, w6: World, n: nat, b: string) returns (w8: World)
    requires Reachable(c, w6) && w6.procs == [Releasing(n, Some(b))] && w6.lock == Some(LockFile(n, true))
    ensures Reachable(c, w8) && w8 == w6.(procs := [Answered(Some(b))], lock := None)
  {
    var w7 := w6.(procs := [Removing(n, Some(b))]);
    Reach(c, w6, w7, 0);
    w8 := w7.(procs := [Answered(Some(b))], lock := None);
    Reach(c, w7, w8, 0);
  }

  /** One process from a missed read to an acquisition. */
  lemma ReachMiss(c: Config, w: World) returns (w': World)
    requires Reachable(c, w) && w.procs == [Idle] && (!Usable(c, w.artifact) || c.flaky)
    ensures Reachable(c, w') && w' == w.(procs := [Acquire(0)])
  {
    var w1 := w.(procs := [FastPath]);
    Reach(c, w, w1, 0);
    w' := w1.(procs := [Acquire(0)]);
    Reach(c, w1, w', 0);
  }

  /** No download is ever started after a publish. */
  ghost predicate NeverAgain(c: Config) {
    forall w :: Reachable(c, w) ==> forall k :: 0 <= k < |w.downloads| ==> w.downloads[k].publishes == 0
  }

  lemma MissedIsDownloadedAgain(c: Config, b: string)
    requires c.valid(b) && Missable(c, b)
    ensures !NeverAgain(c)
  {
    var w0 := World(None, None, map[], [Idle], 0, {}, [], [], []);
    assert IsRun(c, [w0]);
    assert Reachable(c, w0);
    var w1 := ReachMiss(c, w0);
    var w2 := ReachDownload(c, w1);
    var w3 := ReachStore(c, w2, 0, b);
    var w4 := ReachRename(c, w3, 0, b);
    var w5 := ReachAnswer(c, w4, 0, b);
    var w6 := ReachMiss(c, w5);
    var w7 := ReachDownload(c, w6);
    assert w7.downloads[1].publishes == 1;
  }

  /** The guarantee holds for exactly the configurations under which no valid payload can be taken
      for a miss: reads do not fail, and the empty text, which readers treat as corrupt, is not
      accepted by the validator. A validator that is not set accepts it. */
  lemma OneDownloadIff(c: Config)
    requires exists b :: c.valid(b)
    ensures NeverAgain(c) <==> !c.flaky && !c.valid("")
  {
    if !c.flaky && !c.valid("") {
      forall w | Reachable(c, w)
        ensures forall k :: 0 <= k < |w.downloads| ==> w.downloads[k].publishes == 0
      {
        var ws :| IsRun(c, ws) && ws[|ws| - 1] == w;
        OneDownload(c, ws);
      }
    } else {
      var b := if c.valid("") then "" else var x :| c.valid(x); x;
      MissedIsDownloadedAgain(c, b);
    }
  }
}
