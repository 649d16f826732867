/** The status bookkeeping of the replicator (Replicator/Replicator.cc): the
    push and pull statuses it starts with, how it folds its children's
    status reports into its own, the activity level it derives from the
    connection state, and the error it records when the connection closes.

    The actors, the network and the checkpoint are not modelled; what they
    contribute enters as parameters (the base worker's own activity level,
    whether the checkpoint is unsaved, whether the replicator is continuous
    or an open server), and what the code does to them is recorded as
    effects in the `Replicator` value (a close request, checkpoint saves,
    the errors reported). */
module ReplicatorStatus {
  import opened Wrappers
  import opened C4Base

  /** `C4ReplicatorActivityLevel`, in declaration order. */
  datatype ActivityLevel = Stopped | Offline | Connecting | Idle | Busy

  /** The level's position in the enum, which `max` compares. */
  function Rank(l: ActivityLevel): nat {
    match l
    case Stopped => 0
    case Offline => 1
    case Connecting => 2
    case Idle => 3
    case Busy => 4
  }

  /** `std::max` on activity levels. */
  function MaxLevel(a: ActivityLevel, b: ActivityLevel): (r: ActivityLevel)
    ensures r == a || r == b
    ensures Rank(r) == Max(Rank(a), Rank(b))
  {
    if Rank(a) < Rank(b) then b else a
  }

  /** `C4ReplicatorMode`, in declaration order. */
  datatype Mode = Disabled | Passive | OneShot | Continuous

  /** `Connection::State`. */
  datatype ConnectionState = Connecting | Connected | Closing | Disconnected | Closed

  const UInt64Modulus: nat := 0x1_0000_0000_0000_0000

  /** The counters of `C4Progress` the replicator adds up. */
  datatype Progress = Progress(unitsCompleted: nat, unitsTotal: nat)

  /** Adding progress sums each counter in 64-bit unsigned arithmetic. */
  function AddProgress(p: Progress, q: Progress): (r: Progress)
    ensures r.unitsCompleted < UInt64Modulus && r.unitsTotal < UInt64Modulus
    ensures p.unitsCompleted + q.unitsCompleted < UInt64Modulus ==>
      r.unitsCompleted == p.unitsCompleted + q.unitsCompleted
    ensures p.unitsTotal + q.unitsTotal < UInt64Modulus ==>
      r.unitsTotal == p.unitsTotal + q.unitsTotal
  {
    Progress((p.unitsCompleted + q.unitsCompleted) % UInt64Modulus,
             (p.unitsTotal + q.unitsTotal) % UInt64Modulus)
  }

  /** `C4ReplicatorStatus`. */
  datatype Status = Status(level: ActivityLevel, progress: Progress, error: C4Error)

  /** A status of the given level with no progress and no error. */
  function LevelOnly(l: ActivityLevel): Status {
    Status(l, Progress(0, 0), NoError)
  }

  /** The replicator's fields that the status logic reads and writes, and
      the effects it has on the parts that are not modelled. */
  datatype Replicator = Replicator(
    connectionState: ConnectionState,
    hasConnection: bool,
    status: Status,
    pushStatus: Status,
    pullStatus: Status,
    dbStatus: Status,
    continuous: bool,
    openServer: bool,
    checkpointUnsaved: bool,
    // effects
    closeRequested: bool,
    checkpointSaves: nat,
    errors: seq<C4Error>,
    closeStatus: Option<CloseStatus>)

  // ---------------------------------------------------------------------------
  // Construction
  // ---------------------------------------------------------------------------

  /** The initial status of one direction: stopped when it is disabled, busy
      otherwise. */
  function InitialLevel(mode: Mode): (l: ActivityLevel)
    ensures l == Stopped <==> mode == Disabled
    ensures l == Stopped || l == Busy
  {
    if mode == Disabled then Stopped else Busy
  }

  /** The constructor's status initialisation; the remaining fields are
      those of the base worker and the connection it is given. */
  function Create(push: Mode, pull: Mode, state: ConnectionState, status: Status,
                  continuous: bool, openServer: bool): (r: Replicator)
    ensures r.pushStatus.level == InitialLevel(push) && r.pullStatus.level == InitialLevel(pull)
    ensures r.pushStatus.error == NoError && r.pullStatus.error == NoError
    ensures r.connectionState == state && r.hasConnection
    ensures !r.closeRequested && r.checkpointSaves == 0 && r.errors == [] && r.closeStatus == None
  {
    Replicator(state, true, status, LevelOnly(InitialLevel(push)), LevelOnly(InitialLevel(pull)),
               LevelOnly(Stopped), continuous, openServer, false, false, 0, [], None)
  }

  // ---------------------------------------------------------------------------
  // Stopping and the activity level
  // ---------------------------------------------------------------------------

  /** `_stop`: when there is a connection, close it and enter Closing. */
  function Stop(r: Replicator): (r': Replicator)
    ensures r.hasConnection ==> r' == r.(closeRequested := true, connectionState := ConnectionState.Closing)
    ensures !r.hasConnection ==> r' == r
  {
    if r.hasConnection then r.(closeRequested := true, connectionState := ConnectionState.Closing)
    else r
  }

  datatype Activity = Activity(level: ActivityLevel, repl: Replicator)

  /** `computeActivityLevel`. `workerLevel` is what the base worker's own
      `computeActivityLevel` reports. When connected, the level is at least
      the push and pull levels; a non-continuous client that reaches Idle
      has finished, so it stops and reports Busy until the close completes. */
  function ComputeActivityLevel(r: Replicator, workerLevel: ActivityLevel): (a: Activity)
    ensures r.connectionState == ConnectionState.Connecting ==> a == Activity(ActivityLevel.Connecting, r)
    ensures r.connectionState == ConnectionState.Closing ==> a == Activity(Busy, r)
    ensures r.connectionState in {ConnectionState.Disconnected, ConnectionState.Closed} ==>
      a.repl == r && (a.level == Busy <==> r.dbStatus.level == Busy) && (a.level == Busy || a.level == Stopped)
    ensures r.connectionState == ConnectionState.Connected ==>
      Rank(a.level) >= Max(Rank(r.pushStatus.level), Rank(r.pullStatus.level)) &&
      (r.checkpointUnsaved ==> a.level == Busy) &&
      (!r.continuous && !r.openServer ==> a.level != Idle)
    ensures a.repl == r || a.repl == Stop(r)
    ensures a.repl != r ==>
      r.connectionState == ConnectionState.Connected && a.level == Busy && !r.continuous && !r.openServer
  {
    match r.connectionState
    case Connecting => Activity(ActivityLevel.Connecting, r)
    case Connected =>
      var base := if r.checkpointUnsaved then Busy else workerLevel;
      var level := MaxLevel(base, MaxLevel(r.pushStatus.level, r.pullStatus.level));
      if level == Idle && !r.continuous && !r.openServer then Activity(Busy, Stop(r))
      else Activity(level, r)
    case Closing => Activity(Busy, r)
    case Disconnected => Activity(if r.dbStatus.level == Busy then Busy else Stopped, r)
    case Closed => Activity(if r.dbStatus.level == Busy then Busy else Stopped, r)
  }

  /** The source asserts that a connected replicator is never Stopped; that
      holds whenever the base worker itself does not report Stopped. */
  lemma ConnectedIsActive(r: Replicator, workerLevel: ActivityLevel)
    requires r.connectionState == ConnectionState.Connected && workerLevel != Stopped
    ensures ComputeActivityLevel(r, workerLevel).level != Stopped
  {
  }

  /** The replicator reports Stopped exactly when the connection is gone and
      the database worker is not busy. */
  lemma StoppedOnlyWhenDone(r: Replicator, workerLevel: ActivityLevel)
    requires workerLevel != Stopped
    ensures ComputeActivityLevel(r, workerLevel).level == Stopped <==>
      r.connectionState in {ConnectionState.Disconnected, ConnectionState.Closed} &&
      r.dbStatus.level != Busy
  {
  }

  /** When the connection is up, the level is exactly the greatest of the
      inputs, except that a finished one-shot client reports Busy. */
  lemma ConnectedLevelIsGreatest(r: Replicator, workerLevel: ActivityLevel)
    requires r.connectionState == ConnectionState.Connected && !r.checkpointUnsaved
    ensures var a := ComputeActivityLevel(r, workerLevel);
      var m := Max(Rank(workerLevel), Max(Rank(r.pushStatus.level), Rank(r.pullStatus.level)));
      Rank(a.level) == m || (m == Rank(Idle) && a.level == Busy && !r.continuous && !r.openServer)
  {
  }

  /** Once a finished one-shot replicator has asked to close, asking again
      reports Busy without a second close request. */
  lemma CompletionStopsOnce(r: Replicator, workerLevel: ActivityLevel, laterLevel: ActivityLevel)
    requires r.connectionState == ConnectionState.Connected && r.hasConnection && !r.closeRequested
    requires ComputeActivityLevel(r, workerLevel).repl != r
    ensures var a := ComputeActivityLevel(r, workerLevel);
      a.repl.closeRequested && a.repl.connectionState == ConnectionState.Closing &&
      ComputeActivityLevel(a.repl, laterLevel) == Activity(Busy, a.repl)
  {
  }

  // ---------------------------------------------------------------------------
  // Status reports from the children
  // ---------------------------------------------------------------------------

  /** Which worker a status report came from. */
  datatype Child = Pusher | Puller | DbActor | OtherWorker

  /** The replicator's progress is the sum of push and pull progress. */
  predicate ProgressIsSum(r: Replicator) {
    r.status.progress == AddProgress(r.pushStatus.progress, r.pullStatus.progress)
  }

  /** Replaces the reporting child's slot. */
  function UpdateSlot(r: Replicator, child: Child, taskStatus: Status): (r': Replicator)
    ensures r'.pushStatus == (if child == Pusher then taskStatus else r.pushStatus)
    ensures r'.pullStatus == (if child == Puller then taskStatus else r.pullStatus)
    ensures r'.dbStatus == (if child == DbActor then taskStatus else r.dbStatus)
    ensures r' == r.(pushStatus := r'.pushStatus, pullStatus := r'.pullStatus, dbStatus := r'.dbStatus)
  {
    match child
    case Pusher => r.(pushStatus := taskStatus)
    case Puller => r.(pullStatus := taskStatus)
    case DbActor => r.(dbStatus := taskStatus)
    case OtherWorker => r
  }

  /** The error passed to `onError`: the pull error if there is one, else
      the push error if there is one. */
  function ChildError(push: Status, pull: Status): seq<C4Error> {
    if pull.error.code != 0 then [pull.error]
    else if push.error.code != 0 then [push.error]
    else []
  }

  /** `_childChangedStatus`: ignored once stopped; otherwise the reporting
      child's slot is replaced, progress is recomputed, the pull error (or
      else the push error) is reported, and a child that stopped triggers a
      checkpoint save. */
  function ChildChangedStatus(r: Replicator, child: Child, taskStatus: Status): (r': Replicator)
    ensures r.status.level == Stopped ==> r' == r
    ensures r.status.level != Stopped ==>
      r'.pushStatus == (if child == Pusher then taskStatus else r.pushStatus) &&
      r'.pullStatus == (if child == Puller then taskStatus else r.pullStatus) &&
      r'.dbStatus == (if child == DbActor then taskStatus else r.dbStatus) &&
      ProgressIsSum(r') &&
      r'.errors == r.errors + ChildError(r'.pushStatus, r'.pullStatus) &&
      r'.checkpointSaves == r.checkpointSaves + (if taskStatus.level == Stopped then 1 else 0)
    ensures r' == r.(pushStatus := r'.pushStatus, pullStatus := r'.pullStatus, dbStatus := r'.dbStatus,
                     status := r'.status, errors := r'.errors, checkpointSaves := r'.checkpointSaves)
    ensures r'.status.level == r.status.level && r'.status.error == r.status.error
  {
    if r.status.level == Stopped then r
    else
      var r1 := UpdateSlot(r, child, taskStatus);
      var progress := AddProgress(r1.pushStatus.progress, r1.pullStatus.progress);
      var saves := if taskStatus.level == Stopped then 1 else 0;
      r1.(status := r1.status.(progress := progress),
          errors := r1.errors + ChildError(r1.pushStatus, r1.pullStatus),
          checkpointSaves := r1.checkpointSaves + saves)
  }

  /** A pull error hides a push error reported at the same time. */
  lemma PullErrorPreferred(r: Replicator, pushError: C4Error, pullError: C4Error)
    requires r.status.level != Stopped && r.pushStatus.error == pushError
    requires pushError.code != 0 && pullError.code != 0
    ensures var r' := ChildChangedStatus(r, Puller, r.pullStatus.(error := pullError));
      r'.errors == r.errors + [pullError]
  {
  }

  /** Push and pull reports commute as far as the statuses and the progress
      are concerned: the order of arrival only affects the errors reported. */
  lemma PushPullReportsCommute(r: Replicator, push: Status, pull: Status)
    requires r.status.level != Stopped
    ensures var a := ChildChangedStatus(ChildChangedStatus(r, Pusher, push), Puller, pull);
      var b := ChildChangedStatus(ChildChangedStatus(r, Puller, pull), Pusher, push);
      a.pushStatus == b.pushStatus && a.pullStatus == b.pullStatus &&
      a.dbStatus == b.dbStatus && a.status == b.status && a.checkpointSaves == b.checkpointSaves
  {
  }

  /** A report from any child leaves progress equal to push plus pull, so
      the replicator never shows the database worker's progress. */
  lemma {:induction false} ProgressStaysSum(r: Replicator, reports: seq<(Child, Status)>)
    requires r.status.level != Stopped && |reports| > 0
    ensures ProgressIsSum(Replay(r, reports))
    decreases |reports|
  {
    if |reports| > 1 {
      ProgressStaysSum(r, reports[..|reports| - 1]);
    }
  }

  /** Delivers status reports in order. */
  function Replay(r: Replicator, reports: seq<(Child, Status)>): (r': Replicator)
    ensures r'.status.level == r.status.level
    decreases |reports|
  {
    if |reports| == 0 then r
    else
      var last := reports[|reports| - 1];
      ChildChangedStatus(Replay(r, reports[..|reports| - 1]), last.0, last.1)
  }

  // ---------------------------------------------------------------------------
  // Closing
  // ---------------------------------------------------------------------------

  /** `websocket::CloseReason`, in declaration order. */
  datatype CloseReason = WebSocketClose | POSIXError | NetworkError | Exception | UnknownError

  function ReasonIndex(reason: CloseReason): nat {
    match reason
    case WebSocketClose => 0
    case POSIXError => 1
    case NetworkError => 2
    case Exception => 3
    case UnknownError => 4
  }

  /** `Connection::CloseStatus`. */
  datatype CloseStatus = CloseStatus(reason: CloseReason, code: int, message: string)

  /** WebSocket close codes (RFC 6455 section 7.4.1). */
  const CodeNormal := 1000
  const CodeGoingAway := 1001

  /** A WebSocket-level close with code 1000 or 1001. */
  predicate IsNormal(s: CloseStatus) {
    s.reason == WebSocketClose && (s.code == CodeNormal || s.code == CodeGoingAway)
  }

  /** `kDomainForReason`. */
  const DomainForReason: seq<C4ErrorDomain> := [WebSocketDomain, POSIXDomain, NetworkDomain]

  /** The error recorded for a close: none for a WebSocket close with code
      1000; the reason's domain with the close code for the first three
      reasons; LiteCore's remote error otherwise. */
  function CloseError(s: CloseStatus): (e: Option<C4Error>)
    ensures e.None? <==> s.reason == WebSocketClose && s.code == CodeNormal
    ensures e.Some? && ReasonIndex(s.reason) < 3 ==>
      e.value.code == s.code && e.value.domain == DomainForReason[ReasonIndex(s.reason)]
    ensures e.Some? && ReasonIndex(s.reason) >= 3 ==> e.value == MakeError(LiteCoreDomain, RemoteError)
  {
    if s.reason != WebSocketClose || s.code != CodeNormal then
      var i := ReasonIndex(s.reason);
      if i < |DomainForReason| then Some(MakeError(DomainForReason[i], s.code))
      else Some(MakeError(LiteCoreDomain, RemoteError))
    else None
  }

  /** `_onClose`: the connection goes away and its new state is taken; a
      normal close the replicator did not start itself is recorded as
      1001 (going away); an unclean close is reported as an error. */
  function OnClose(r: Replicator, s: CloseStatus, state: ConnectionState): (r': Replicator)
    ensures r'.connectionState == state && !r'.hasConnection
    ensures var byPeer := r.connectionState != ConnectionState.Closing;
      r'.closeStatus == Some(if IsNormal(s) && byPeer
                             then CloseStatus(s.reason, CodeGoingAway, "WebSocket connection closed by peer")
                             else s)
    ensures r'.errors == r.errors + (match CloseError(r'.closeStatus.value) case None => [] case Some(e) => [e])
    ensures r' == r.(connectionState := state, hasConnection := false,
                     closeStatus := r'.closeStatus, errors := r'.errors)
  {
    var closedByPeer := r.connectionState != ConnectionState.Closing;
    var status := if IsNormal(s) && closedByPeer
                  then s.(code := CodeGoingAway, message := "WebSocket connection closed by peer")
                  else s;
    var r1 := r.(connectionState := state, hasConnection := false, closeStatus := Some(status));
    match CloseError(status)
    case None => r1
    case Some(e) => r1.(errors := r1.errors + [e])
  }

  /** A close with code 1000 that the replicator asked for records no error. */
  lemma RequestedCloseIsClean(r: Replicator, message: string, state: ConnectionState)
    requires r.connectionState == ConnectionState.Closing
    ensures OnClose(r, CloseStatus(WebSocketClose, CodeNormal, message), state).errors == r.errors
  {
  }

  /** A normal close the peer started is reported as a WebSocket error
      with code 1001, whether the peer sent 1000 or 1001. */
  lemma PeerCloseIsGoingAway(r: Replicator, s: CloseStatus, state: ConnectionState)
    requires r.connectionState != ConnectionState.Closing && IsNormal(s)
    ensures OnClose(r, s, state).errors == r.errors + [MakeError(WebSocketDomain, CodeGoingAway)]
  {
  }

  /** A close records an error exactly when it is not a normal close the
      replicator asked for: a peer close or a code other than 1000 always
      counts, a requested 1000 never does. */
  lemma CloseErrorIff(r: Replicator, s: CloseStatus, state: ConnectionState)
    ensures |OnClose(r, s, state).errors| == |r.errors| + 1 <==>
      !(s.reason == WebSocketClose && s.code == CodeNormal && r.connectionState == ConnectionState.Closing)
  {
  }

  /** Transport failures keep their code under their own domain; any other
      reason becomes LiteCore's remote error. */
  lemma TransportErrorsKeepCode(r: Replicator, code: int, message: string, state: ConnectionState)
    ensures OnClose(r, CloseStatus(POSIXError, code, message), state).errors == r.errors + [MakeError(POSIXDomain, code)]
    ensures OnClose(r, CloseStatus(NetworkError, code, message), state).errors == r.errors + [MakeError(NetworkDomain, code)]
    ensures OnClose(r, CloseStatus(Exception, code, message), state).errors == r.errors + [MakeError(LiteCoreDomain, RemoteError)]
    ensures OnClose(r, CloseStatus(UnknownError, code, message), state).errors == r.errors + [MakeError(LiteCoreDomain, RemoteError)]
  {
  }
}
