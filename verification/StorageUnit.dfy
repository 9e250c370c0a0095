/**
 One storage unit: the operation word, the value, the timeout union and the callback, and what the
 user thread, the tick thread and the reply handlers do to them when each runs without interruption.
 */
module StorageUnits {
  import opened Common
  import opened Wire

  datatype Mode = NONE | READ | WRITE

  datatype State = SUCCESS | WAITING | READING | WRITING | WRITING_CONFIRMING

  datatype Operation = Operation(mode: Mode, state: State)

  datatype Policy = MASKED | CONTROL_WORD | POSITION | POSITION_REVERSED

  datatype StorageInfo = StorageInfo(key: Key, size: Size, policy: set<Policy>)

  /**
   `timer` is the union of the raw timeout and the deadline. `callback` is the operation a checked call
   was given a callback for, `None` for the null callback of an unchecked one.
   */
  datatype StorageUnit = StorageUnit(
    info: StorageInfo, operation: Operation, version: nat, value: nat, timer: int, callback: Option<nat>)

  // `steady_clock` counts nanoseconds in a signed 64-bit word
  const TIME_MAX: int := 0x7FFF_FFFF_FFFF_FFFF
  const TIME_MIN: int := -0x8000_0000_0000_0000

  const IDLE := Operation(NONE, SUCCESS)

  predicate Idle(u: StorageUnit) {
    u.operation.mode == NONE
  }

  predicate Masked(u: StorageUnit) {
    MASKED in u.info.policy
  }

  // ---------------------------------------------------------------- user thread

  function Accept(u: StorageUnit, mode: Mode, timeout: int, callback: Option<nat>): StorageUnit {
    u.(timer := timeout, callback := callback, operation := Operation(mode, WAITING))
  }

  function ReadAsyncUnchecked(u: StorageUnit, timeout: int): StorageUnit {
    if !Idle(u) then u else Accept(u, READ, timeout, None)
  }

  /** `None` where the source throws "Data is being operated". */
  function ReadAsync(u: StorageUnit, timeout: int, context: nat): Option<StorageUnit> {
    if !Idle(u) then None else Some(Accept(u, READ, timeout, Some(context)))
  }

  /** Stores the value even when the unit is busy. */
  function WriteAsyncUnchecked(u: StorageUnit, data: nat, timeout: int): StorageUnit {
    var stored := u.(value := data);
    if !Idle(u) then stored else Accept(stored, WRITE, timeout, None)
  }

  function WriteAsync(u: StorageUnit, data: nat, timeout: int, context: nat): Option<StorageUnit> {
    if !Idle(u) then None else Some(Accept(u.(value := data), WRITE, timeout, Some(context)))
  }

  // ---------------------------------------------------------------- event thread

  /** A 32-bit counter that skips zero: zero means that nothing has been read yet. */
  function NextVersion(version: nat): (next: nat)
    ensures 1 <= next < 0x1_0000_0000
    ensures version < 0x1_0000_0000 ==> next != version
  {
    var sum := (version + 1) % 0x1_0000_0000;
    if sum == 0 then 1 else sum
  }

  function OnReadSuccess(u: StorageUnit, size: Size, value: nat): StorageUnit {
    if Idle(u) then u
    else if u.operation.state == READING then
      u.(value := value, version := NextVersion(u.version), operation := u.operation.(state := SUCCESS))
    else if u.operation.state == WRITING_CONFIRMING then
      if value == Truncate(u.value, size) then u.(operation := u.operation.(state := SUCCESS))
      else u.(operation := u.operation.(state := WRITING))
    else u
  }

  function OnWriteSuccess(u: StorageUnit): StorageUnit {
    if !Idle(u) && u.operation.state == WRITING then u.(operation := u.operation.(state := SUCCESS)) else u
  }

  function OnReply(u: StorageUnit, r: Reply): StorageUnit {
    match r
    case ReadSuccess(_, size, value) => OnReadSuccess(u, size, value)
    case WriteSuccess(_) => OnWriteSuccess(u)
    case _ => u
  }

  // ---------------------------------------------------------------- tick thread

  /** The deadline set by the first tick of an operation; negative and overflowing timeouts never expire. */
  function Deadline(now: int, timeout: int): int {
    if timeout < 0 || now > TIME_MAX - timeout then TIME_MAX else now + timeout
  }

  predicate Succeeds(u: StorageUnit) {
    !Idle(u) && (Masked(u) || u.operation.state == SUCCESS)
  }

  datatype TickResult = TickResult(unit: StorageUnit, verdicts: seq<bool>, request: Option<Request>)

  /** One pass of the tick loop over one unit, as the code is written: success falls through to the deadline test. */
  function Tick(u: StorageUnit, now: int): TickResult {
    if Idle(u) then TickResult(u, [], None)
    else if Succeeds(u) then
      TickResult(u.(operation := IDLE), if now >= u.timer then [true, false] else [true], None)
    else if u.operation.state == WAITING then
      var state := if u.operation.mode == READ then READING else WRITING;
      TickResult(u.(timer := Deadline(now, u.timer), operation := u.operation.(state := state)), [], None)
    else if now >= u.timer then
      TickResult(u.(operation := u.operation.(mode := NONE)), [false], None)
    else if u.operation.state == WRITING then
      TickResult(u.(operation := u.operation.(state := WRITING_CONFIRMING)), [],
                 Some(Write(u.info.key, u.info.size, Truncate(u.value, u.info.size))))
    else TickResult(u, [], Some(Read(u.info.key)))
  }

  datatype Completion = Completion(operation: nat, success: bool)

  /** The callbacks a tick makes, none for a null callback. */
  function Callbacks(u: StorageUnit, now: int): seq<Completion> {
    if u.callback.None? then []
    else seq(|Tick(u, now).verdicts|, i requires 0 <= i < |Tick(u, now).verdicts| =>
           Completion(u.callback.value, Tick(u, now).verdicts[i]))
  }

  function Issued(u: StorageUnit, now: int): seq<Request> {
    var r := Tick(u, now).request;
    if r.Some? then [r.value] else []
  }

  /** A whole tick: every unit once, in order. */
  function TickUnits(us: seq<StorageUnit>, now: int): (us': seq<StorageUnit>)
    ensures |us'| == |us|
  {
    seq(|us|, i requires 0 <= i < |us| => Tick(us[i], now).unit)
  }

  function TickCallbacks(us: seq<StorageUnit>, now: int): seq<Completion> {
    if us == [] then [] else TickCallbacks(us[..|us| - 1], now) + Callbacks(us[|us| - 1], now)
  }

  function TickRequests(us: seq<StorageUnit>, now: int): (rs: seq<Request>)
    ensures |rs| <= |us|
  {
    if us == [] then [] else TickRequests(us[..|us| - 1], now) + Issued(us[|us| - 1], now)
  }

  // ---------------------------------------------------------------- dispatch

  datatype Handled = Handled(units: seq<StorageUnit>, known: bool)

  /** Whether the handler of this record looks its unit up. */
  predicate Addressed(r: Reply) {
    r.ReadSuccess? || r.WriteSuccess?
  }

  function HandleReply(us: seq<StorageUnit>, index: map<Key, nat>, r: Reply): (h: Handled)
    ensures |h.units| == |us|
  {
    if !Addressed(r) then Handled(us, true)
    else if r.key !in index || index[r.key] >= |us| then Handled(us, false)
    else Handled(us[index[r.key] := OnReply(us[index[r.key]], r)], true)
  }

  /** The replies of one frame in order, up to the first whose unit is not found. */
  function HandleReplies(us: seq<StorageUnit>, index: map<Key, nat>, rs: seq<Reply>): (h: Handled)
    ensures |h.units| == |us|
  {
    if rs == [] then Handled(us, true)
    else
      var h := HandleReplies(us, index, rs[..|rs| - 1]);
      if h.known then HandleReply(h.units, index, rs[|rs| - 1]) else h
  }

  lemma {:induction false} UnknownStops(us: seq<StorageUnit>, index: map<Key, nat>, rs: seq<Reply>, more: seq<Reply>)
    requires !HandleReplies(us, index, rs).known
    ensures HandleReplies(us, index, rs + more) == HandleReplies(us, index, rs)
  {
    if more == [] {
      assert rs + more == rs;
    } else {
      UnknownStops(us, index, rs, more[..|more| - 1]);
      assert (rs + more)[..|rs + more| - 1] == rs + more[..|more| - 1];
    }
  }

  /** A frame is taken to its end exactly when every value and acknowledgement in it finds its unit. */
  lemma {:induction false} KnownExactly(us: seq<StorageUnit>, index: map<Key, nat>, rs: seq<Reply>)
    ensures HandleReplies(us, index, rs).known <==>
            forall i :: 0 <= i < |rs| ==> Finds(rs[i], index, |us|)
  {
    hide HandleReply;
    if rs != [] {
      var n := |rs| - 1;
      KnownExactly(us, index, rs[..n]);
      KnownOne(HandleReplies(us, index, rs[..n]).units, index, rs[n]);
    }
  }

  predicate Finds(r: Reply, index: map<Key, nat>, units: nat) {
    r.ReadSuccess? || r.WriteSuccess? ==> r.key in index && index[r.key] < units
  }

  lemma KnownOne(us: seq<StorageUnit>, index: map<Key, nat>, r: Reply)
    ensures HandleReply(us, index, r).known <==> Finds(r, index, |us|)
  {
  }

  /** An error reply changes nothing, whatever its key, wherever it stands in the frame. */
  lemma {:induction false} ErrorsIgnored(
    us: seq<StorageUnit>, index: map<Key, nat>, rs: seq<Reply>, r: Reply, more: seq<Reply>)
    requires r.ReadError? || r.WriteError?
    ensures HandleReplies(us, index, rs + [r] + more) == HandleReplies(us, index, rs + more)
  {
    if more == [] {
      assert rs + [r] + more == rs + [r] && rs + more == rs && (rs + [r])[..|rs|] == rs;
    } else {
      var n := |more| - 1;
      ErrorsIgnored(us, index, rs, r, more[..n]);
      assert (rs + [r] + more)[..|rs| + 1 + n] == rs + [r] + more[..n] && (rs + more)[..|rs| + n] == rs + more[..n];
      hide HandleReply;
    }
  }
}
