/** `Handler::Impl`: the storage array, the index map and the three kinds of call that change them. */
module Handlers {
  import Bits
  import opened Common
  import opened Wire
  import opened Frames
  import opened StorageUnits
  import RingBuffers
  import opened TransmitBuffers
  import Completions

  const PDO_RESULT := 82  // sizeof(protocol::pdo::CommandResult)

  /** The four bytes of a joint's position in a `CommandResult`. */
  function PdoField(frame: seq<Byte>, i: nat, j: nat): (bs: seq<Byte>)
    requires |frame| == PDO_RESULT && i < 5 && j < 4
    ensures |bs| == 4
  {
    frame[2 + 4 * (4 * i + j)..][..4]
  }

  function PdoPosition(frame: seq<Byte>, i: nat, j: nat): nat
    requires |frame| == PDO_RESULT && i < 5 && j < 4
  {
    FromLittleEndian(PdoField(frame, i, j))
  }

  lemma FieldAt(bytes: seq<Byte>, start: nat, i: nat, j: nat)
    requires start + PDO_RESULT <= |bytes| && i < 5 && j < 4
    ensures var at := start + 2 + 4 * (4 * i + j);
      at + 4 <= |bytes| && bytes[at..at + 4] == PdoField(bytes[start..start + PDO_RESULT], i, j)
  {
    SubSlice(bytes, start, start + PDO_RESULT, start + 2 + 4 * (4 * i + j), 4);
  }

  /** The positions as the device lays them out, four bytes each. */
  function PdoBytes(positions: seq<nat>): (bs: seq<Byte>)
    ensures |bs| == 4 * |positions|
  {
    if positions == [] then []
    else PdoBytes(positions[..|positions| - 1]) + LittleEndian(positions[|positions| - 1], 4)
  }

  lemma {:induction false} PdoBytesAt(positions: seq<nat>, k: nat)
    requires k < |positions|
    ensures PdoBytes(positions)[4 * k..4 * k + 4] == LittleEndian(positions[k], 4)
  {
    hide LittleEndian;
    var n := |positions| - 1;
    if k < n {
      PdoBytesAt(positions[..n], k);
      assert PdoBytes(positions)[4 * k..4 * k + 4] == PdoBytes(positions[..n])[4 * k..4 * k + 4];
    }
  }

  /** Of twenty positions sent finger by finger, joint `j` of finger `i` is read back from its place. */
  lemma PdoPositionsReadBack(positions: seq<nat>, written: Byte, executed: Byte, i: nat, j: nat)
    requires |positions| == 20 && (forall k :: 0 <= k < 20 ==> positions[k] < Limit(4)) && i < 5 && j < 4
    ensures PdoPosition([written, executed] + PdoBytes(positions), i, j) == positions[4 * i + j]
  {
    hide LittleEndian, FromLittleEndian, Limit, PdoBytes;
    var k := 4 * i + j;
    PdoBytesAt(positions, k);
    LittleEndianRoundTrip(positions[k], 4);
    assert PdoField([written, executed] + PdoBytes(positions), i, j) == PdoBytes(positions)[4 * k..4 * k + 4];
  }

  class Handler {
    const storage: array<StorageUnit>
    var index: map<Key, nat>
    const tickBuffer: AsyncTransmitBuffer
    const pdoReadResult: array2<nat>  // raw joint positions, by finger and joint
    var pdoReadResultVersion: nat
    ghost var log: seq<Completion>  // every callback made, in order

    ghost predicate Valid()
      reads this, tickBuffer, tickBuffer.freeTransfers, tickBuffer.freeTransfers.storage
    {
      && tickBuffer.Valid()
      && forall key :: key in index ==> index[key] < storage.Length
    }

    constructor (bufferTransferCount: nat, storageUnitCount: nat)
      requires bufferTransferCount <= Bits.TOP
      ensures Valid() && fresh(storage) && fresh(tickBuffer)
      ensures storage.Length == storageUnitCount && index == map[] && log == []
      ensures forall i :: 0 <= i < storage.Length ==> storage[i].operation == IDLE && storage[i].version == 0
      ensures forall i :: 0 <= i < storage.Length ==> storage[i].callback.None?
      ensures FreshFrom(tickBuffer.Shared(), 0) && |tickBuffer.Shared().free| == bufferTransferCount
      ensures fresh(pdoReadResult) && pdoReadResult.Length0 == 5 && pdoReadResult.Length1 == 4
        && pdoReadResultVersion == 0
    {
      pdoReadResult, pdoReadResultVersion := new nat[5, 4], 0;
      tickBuffer := new AsyncTransmitBuffer(bufferTransferCount);
      storage := new StorageUnit[storageUnitCount](
        _ => StorageUnit(StorageInfo(Key(0, 0), Size1, {}), IDLE, 0, 0, 0, None));
      index, log := map[], [];
    }

    method InitStorageInfo(storageId: nat, info: StorageInfo)
      requires storageId < storage.Length
      modifies `index, storage
      ensures storage[..] == old(storage[..])[storageId := old(storage[storageId]).(info := info)]
      ensures index == old(index)[info.key := storageId]
    {
      storage[storageId] := storage[storageId].(info := info);
      index := index[info.key := storageId];
    }

    method ReadAsyncUnchecked(storageId: nat, timeout: int)
      requires storageId < storage.Length
      modifies storage
      ensures storage[..]
           == old(storage[..])[storageId := StorageUnits.ReadAsyncUnchecked(old(storage[storageId]), timeout)]
    {
      var u := storage[storageId];
      if u.operation.mode != NONE {
        return;
      }
      storage[storageId] := u.(timer := timeout, callback := None);
      storage[storageId] := storage[storageId].(operation := Operation(READ, WAITING));
    }

    method ReadAsync(storageId: nat, timeout: int, context: nat) returns (accepted: bool)
      requires storageId < storage.Length
      modifies storage
      ensures var r := StorageUnits.ReadAsync(old(storage[storageId]), timeout, context);
        && accepted == r.Some?
        && storage[..] == if r.Some? then old(storage[..])[storageId := r.value] else old(storage[..])
    {
      var u := storage[storageId];
      if u.operation.mode != NONE {
        return false;
      }
      storage[storageId] := u.(timer := timeout, callback := Some(context));
      storage[storageId] := storage[storageId].(operation := Operation(READ, WAITING));
      return true;
    }

    method WriteAsyncUnchecked(data: nat, storageId: nat, timeout: int)
      requires storageId < storage.Length
      modifies storage
      ensures storage[..]
           == old(storage[..])[storageId := StorageUnits.WriteAsyncUnchecked(old(storage[storageId]), data, timeout)]
    {
      storage[storageId] := storage[storageId].(value := data);
      if storage[storageId].operation.mode != NONE {
        return;
      }
      storage[storageId] := storage[storageId].(timer := timeout, callback := None);
      storage[storageId] := storage[storageId].(operation := Operation(WRITE, WAITING));
    }

    method WriteAsync(data: nat, storageId: nat, timeout: int, context: nat) returns (accepted: bool)
      requires storageId < storage.Length
      modifies storage
      ensures var r := StorageUnits.WriteAsync(old(storage[storageId]), data, timeout, context);
        && accepted == r.Some?
        && storage[..] == if r.Some? then old(storage[..])[storageId := r.value] else old(storage[..])
    {
      var u := storage[storageId];
      if u.operation.mode != NONE {
        return false;
      }
      storage[storageId] := u.(value := data, timer := timeout, callback := Some(context));
      storage[storageId] := storage[storageId].(operation := Operation(WRITE, WAITING));
      return true;
    }

    // -------------------------------------------------------------- replies

    method HandleReply(r: Reply) returns (known: bool)
      requires forall key :: key in index ==> index[key] < storage.Length
      modifies storage
      ensures Handled(storage[..], known) == StorageUnits.HandleReply(old(storage[..]), index, r)
    {
      match r
      case ReadSuccess(key, size, value) =>
        if key !in index {
          return false;
        }
        var i := index[key];
        var operation := storage[i].operation;
        if operation.mode == NONE {
        } else if operation.state == READING {
          storage[i] := storage[i].(value := value);
          var newVersion := (storage[i].version + 1) % 0x1_0000_0000;
          if newVersion == 0 {
            newVersion := 1;
          }
          storage[i] := storage[i].(version := newVersion);
          operation := operation.(state := SUCCESS);
          storage[i] := storage[i].(operation := operation);
        } else if operation.state == WRITING_CONFIRMING {
          if value == Truncate(storage[i].value, size) {
            operation := operation.(state := SUCCESS);
            storage[i] := storage[i].(operation := operation);
          } else {
            operation := operation.(state := WRITING);
            storage[i] := storage[i].(operation := operation);
          }
        }
        return true;
      case WriteSuccess(key) =>
        if key !in index {
          return false;
        }
        var i := index[key];
        var operation := storage[i].operation;
        if operation.mode != NONE && operation.state == WRITING {
          operation := operation.(state := SUCCESS);
          storage[i] := storage[i].(operation := operation);
        }
        return true;
      case _ =>
        return true;
    }

    /** The records from `start` to `sentinel`; `ok` is false where the source throws. */
    method ReadSdoFrame(buffer: array<Byte>, start: nat, sentinel: nat) returns (ok: bool)
      requires forall key :: key in index ==> index[key] < storage.Length
      requires start <= sentinel <= buffer.Length
      modifies storage
      ensures buffer[..] == old(buffer[..])
      ensures var p := Parse(buffer[start..sentinel]);
        var h := HandleReplies(old(storage[..]), index, p.replies);
        storage[..] == h.units && ok == (h.known && p.end.Finished?)
    {
      hide Parse, HandleReplies, StorageUnits.HandleReply, DecodeReply, ReplyBody, Prepend;
      ghost var before := storage[..];
      ghost var bytes := buffer[start..sentinel];
      ghost var done: seq<Reply> := [];
      var pointer := start;
      HandleNone(before, index);
      PrependNothing(Parse(bytes));
      assert bytes[0..] == bytes;
      while pointer < sentinel
        invariant start <= pointer <= sentinel
        invariant bytes == buffer[start..sentinel]
        invariant Parse(bytes) == Prepend(done, Parse(bytes[pointer - start..]))
        invariant HandleReplies(before, index, done) == Handled(storage[..], true)
      {
        ghost var rest := bytes[pointer - start..];
        ParseUnfold(rest);
        var control := buffer[pointer];
        assert rest[0] == control;
        PrependReplies(done, Parse(rest));
        if control == 0 {
          return true;
        }
        var body := ReplyBody(control);
        if body.None? {
          return false;
        }
        var required := 4 + body.value;
        if sentinel - pointer < required {
          return false;
        }
        var r := DecodeReply(buffer[pointer..pointer + required]);
        SubSlice(buffer[..], start, sentinel, pointer, required);
        PrependMore(done, r, Parse(rest[required..]));
        var known := HandleReply(r);
        HandleOneMore(before, index, done, r);
        done := done + [r];
        pointer := pointer + required;
        if !known {
          PrependReplies(done, Parse(rest[required..]));
          UnknownStops(before, index, done, Parse(rest[required..]).replies);
          return false;
        }
      }
      ParseUnfold(bytes[pointer - start..]);
      PrependReplies(done, Parse(bytes[pointer - start..]));
      return true;
    }

    /** The positions of a PDO answer, if it is long enough and says that the read was executed. */
    method ReadPdoFrame(buffer: array<Byte>, start: nat, sentinel: nat) returns (ok: bool)
      requires start <= sentinel <= buffer.Length
      requires pdoReadResult.Length0 == 5 && pdoReadResult.Length1 == 4
      modifies pdoReadResult, `pdoReadResultVersion
      ensures ok == (sentinel - start >= PDO_RESULT && buffer[start + 1] == 1)
      ensures ok ==> pdoReadResultVersion == Bits.Wrap(old(pdoReadResultVersion) + 1)
      ensures ok ==> forall i, j :: 0 <= i < 5 && 0 <= j < 4 ==>
        pdoReadResult[i, j] == PdoPosition(buffer[start..start + PDO_RESULT], i, j)
      ensures !ok ==> pdoReadResultVersion == old(pdoReadResultVersion) && unchanged(pdoReadResult)
    {
      if sentinel - start < PDO_RESULT || buffer[start + 1] != 1 {
        return false;
      }
      ghost var frame := buffer[start..start + PDO_RESULT];
      for i := 0 to 5
        invariant forall k, j :: 0 <= k < i && 0 <= j < 4 ==> pdoReadResult[k, j] == PdoPosition(frame, k, j)
        invariant pdoReadResultVersion == old(pdoReadResultVersion)
      {
        for j := 0 to 4
          invariant forall k, m :: 0 <= k < i && 0 <= m < 4 ==> pdoReadResult[k, m] == PdoPosition(frame, k, m)
          invariant forall m :: 0 <= m < j ==> pdoReadResult[i, m] == PdoPosition(frame, i, m)
          invariant pdoReadResultVersion == old(pdoReadResultVersion)
        {
          var at := start + 2 + 4 * (4 * i + j);
          FieldAt(buffer[..], start, i, j);
          pdoReadResult[i, j] := FromLittleEndian(buffer[at..at + 4]);
        }
      }
      pdoReadResultVersion := Bits.Wrap(pdoReadResultVersion + 1);
      return true;
    }

    /** A received USB transfer: the frame header, then the records of an SDO or of a PDO frame. */
    method ReceiveTransferCompleted(buffer: array<Byte>, actualLength: nat) returns (ok: bool)
      requires forall key :: key in index ==> index[key] < storage.Length
      requires pdoReadResult.Length0 == 5 && pdoReadResult.Length1 == 4
      requires actualLength <= buffer.Length
      modifies storage, pdoReadResult, `pdoReadResultVersion
      ensures actualLength < PREFILL ==> !ok
      ensures actualLength < PREFILL || buffer[6] != SDO ==> storage[..] == old(storage[..])
      ensures actualLength < PREFILL || buffer[6] != PDO ==>
        pdoReadResultVersion == old(pdoReadResultVersion) && unchanged(pdoReadResult)
      ensures actualLength >= PREFILL && buffer[6] !in {SDO, PDO} ==> ok
      ensures actualLength >= PREFILL && buffer[6] == SDO ==>
        var p := Parse(buffer[PREFILL..actualLength]);
        var h := HandleReplies(old(storage[..]), index, p.replies);
        storage[..] == h.units && ok == (h.known && p.end.Finished?)
      ensures actualLength >= PREFILL && buffer[6] == PDO ==>
        ok == (actualLength >= PREFILL + PDO_RESULT && buffer[PREFILL + 1] == 1)
      ensures actualLength >= PREFILL && buffer[6] == PDO && ok ==>
        && pdoReadResultVersion == Bits.Wrap(old(pdoReadResultVersion) + 1)
        && forall i, j :: 0 <= i < 5 && 0 <= j < 4 ==>
             pdoReadResult[i, j] == PdoPosition(buffer[PREFILL..PREFILL + PDO_RESULT], i, j)
      ensures actualLength >= PREFILL && buffer[6] == PDO && !ok ==>
        pdoReadResultVersion == old(pdoReadResultVersion) && unchanged(pdoReadResult)
    {
      hide Parse, HandleReplies, PdoPosition, Bits.Wrap;
      if actualLength < PREFILL {
        return false;
      }
      if buffer[6] == SDO {
        ok := ReadSdoFrame(buffer, PREFILL, actualLength);
      } else if buffer[6] == PDO {
        ok := ReadPdoFrame(buffer, PREFILL, actualLength);
      } else {
        ok := true;
      }
    }

    // -------------------------------------------------------------- tick

    /** The body of the tick loop for one unit; the request it wants sent comes back to the caller. */
    method TickUnit(i: nat, now: int) returns (request: Option<Request>)
      requires i < storage.Length
      modifies storage, `log
      ensures storage[..] == old(storage[..])[i := Tick(old(storage[i]), now).unit]
      ensures request == Tick(old(storage[i]), now).request
      ensures log == old(log) + Callbacks(old(storage[i]), now)
    {
      request := None;
      var operation := storage[i].operation;
      if operation.mode == NONE {
        return;
      }
      if Masked(storage[i]) {
        operation := operation.(state := SUCCESS);
      }
      if operation.state == SUCCESS {
        operation := operation.(mode := NONE);
        storage[i] := storage[i].(operation := operation);
        if storage[i].callback.Some? {
          log := log + [Completion(storage[i].callback.value, true)];
        }
      }
      if operation.state == WAITING {
        if storage[i].timer < 0 || now > TIME_MAX - storage[i].timer {
          storage[i] := storage[i].(timer := TIME_MAX);
        } else {
          storage[i] := storage[i].(timer := now + storage[i].timer);
        }
        operation := operation.(state := if operation.mode == READ then READING else WRITING);
        storage[i] := storage[i].(operation := operation);
      } else if now >= storage[i].timer {
        operation := operation.(mode := NONE);
        storage[i] := storage[i].(operation := operation);
        if storage[i].callback.Some? {
          log := log + [Completion(storage[i].callback.value, false)];
        }
      } else if operation.state == READING || operation.state == WRITING_CONFIRMING {
        request := Some(Read(storage[i].info.key));
      } else if operation.state == WRITING {
        operation := operation.(state := WRITING_CONFIRMING);
        storage[i] := storage[i].(operation := operation);
        request := Some(Write(storage[i].info.key, storage[i].info.size,
                             Truncate(storage[i].value, storage[i].info.size)));
      }
    }

    // -------------------------------------------------------------- a pass

    /** The handler as a system; `accepted` is the number the next checked call gets. */
    ghost function State(accepted: nat): Completions.System
      reads this, storage
    {
      Completions.System(storage[..], index, accepted, log)
    }

    ghost predicate IndexFits()
      reads this
    {
      forall key :: key in index ==> index[key] < storage.Length
    }

    /** What the user thread or the event thread does, as an event. */
    method Perform(e: Completions.Event, accepted: nat) returns (next: nat)
      requires IndexFits() && !e.TickUnit?
      modifies storage
      ensures State(next) == Completions.Step(old(State(accepted)), e)
    {
      hide StorageUnits.HandleReply;
      next := accepted;
      match e
      case CallRead(id, timeout) =>
        if id < storage.Length {
          var ok := ReadAsync(id, timeout, accepted);
          next := if ok then accepted + 1 else accepted;
        }
      case CallReadUnchecked(id, timeout) =>
        if id < storage.Length { ReadAsyncUnchecked(id, timeout); }
      case CallWrite(id, data, timeout) =>
        if id < storage.Length {
          var ok := WriteAsync(data, id, timeout, accepted);
          next := if ok then accepted + 1 else accepted;
        }
      case CallWriteUnchecked(id, data, timeout) =>
        if id < storage.Length { WriteAsyncUnchecked(data, id, timeout); }
      case Deliver(reply) =>
        var known := HandleReply(reply);
    }

    method PerformAll(es: seq<Completions.Event>, accepted: nat) returns (next: nat)
      requires IndexFits() && forall e :: e in es ==> !e.TickUnit?
      modifies storage
      ensures State(next) == Completions.Run(old(State(accepted)), es)
    {
      hide Completions.Step;
      ghost var start := State(accepted);
      next := accepted;
      for i := 0 to |es|
        invariant State(next) == Completions.Run(start, es[..i])
      {
        assert es[..i + 1][..i] == es[..i];
        next := Perform(es[i], next);
      }
      assert es[..|es|] == es;
    }

    /**
     One pass of `tick_thread_main` over all units, ended by the empty fetch and the transmission that send
     what has been collected. `others` is what the user and the event thread do before each unit's turn. `ok` is
     false where the source throws "No buffer available!". `frames` are the frames this tick submitted, `groups`
     the requests each carries and `visited` the number of units it reached.
     */
    method TickPass(now: int, others: seq<seq<Completions.Event>>, accepted: nat)
      returns (ok: bool, next: nat, ghost frames: seq<seq<Byte>>, ghost groups: seq<seq<Request>>, ghost visited: nat)
      requires Valid() && FreshFrom(tickBuffer.Shared(), 0)
      requires |others| == storage.Length && Completions.NoTicks(others)
      modifies storage, `log, tickBuffer, tickBuffer.freeTransfers, tickBuffer.freeTransfers.storage
      ensures Valid()
      ensures visited <= storage.Length && (ok ==> visited == storage.Length)
      ensures State(next) == Completions.Run(old(State(accepted)), Completions.Schedule(others, now, visited))
      ensures ok ==> FreshFrom(tickBuffer.Shared(), 0)
      ensures ok ==> tickBuffer.submitted == old(tickBuffer.submitted) + frames
      ensures ok ==> |frames| == |groups| && forall i :: 0 <= i < |frames| ==> Carries(frames[i], groups[i])
      ensures ok ==> (
        Flatten(groups) == Completions.RequestsOf(old(State(accepted)), Completions.Schedule(others, now, visited)))
      ensures ok ==> |frames| <= 12 * storage.Length / 491 + 1
      ensures |old(tickBuffer.Shared().free)| > 12 * storage.Length / 491 ==> ok
    {
      hide Ok, FreshFrom, Filling, Carries, EncodeRequests, Packed, Flatten, Completions.Run, Completions.RequestsOf;
      ghost var start, open := State(accepted), [];
      ok, next, frames, groups, open, visited := VisitUnits(now, others, accepted);
      if !ok {
        return;
      }
      ghost var last;
      ok, last := Flush(open);
      FlattenAppend(groups, open);
      PackedFlat(frames, groups, open, Completions.RequestsOf(start, Completions.Schedule(others, now, visited)));
      frames, groups := frames + last, groups + [open];
    }

    /** The loop over the units; requests that do not fit any more close a frame on the way. */
    method VisitUnits(now: int, others: seq<seq<Completions.Event>>, accepted: nat)
      returns (ok: bool, next: nat, ghost frames: seq<seq<Byte>>, ghost groups: seq<seq<Request>>,
               ghost open: seq<Request>, ghost visited: nat)
      requires Valid() && FreshFrom(tickBuffer.Shared(), 0)
      requires |others| == storage.Length && Completions.NoTicks(others)
      modifies storage, `log, tickBuffer, tickBuffer.freeTransfers, tickBuffer.freeTransfers.storage
      ensures Valid() && tickBuffer.submitted == old(tickBuffer.submitted) + frames
      ensures |frames| <= 12 * storage.Length / 491
      ensures |tickBuffer.Shared().free| + |frames| >= |old(tickBuffer.Shared().free)|
      ensures !ok ==> tickBuffer.Shared().free == []
      ensures visited <= storage.Length && (ok ==> visited == storage.Length)
      ensures State(next) == Completions.Run(old(State(accepted)), Completions.Schedule(others, now, visited))
      ensures ok ==> Filling(tickBuffer.Shared(), SDO, EncodeRequests(open))
      ensures Packed(frames, groups, open,
                     Completions.RequestsOf(old(State(accepted)), Completions.Schedule(others, now, visited)))
    {
      hide Ok, FreshFrom, Filling, EncodeRequests, Packed, Completions.Run, Completions.RequestsOf, Completions.Step;
      hide Conserved, AsyncTransmitBuffer.Shared, RingBuffers.RingBuffer.Valid, RingBuffers.RingBuffer.Contents;
      hide Completions.NoTicks;
      ghost var start, room := State(accepted), |tickBuffer.Shared().free|;
      frames, groups, open, visited, next := [], [], [], 0, accepted;
      StartPacking(tickBuffer.Shared(), start, tickBuffer.count);
      for i := 0 to storage.Length
        invariant Valid() && tickBuffer.submitted == old(tickBuffer.submitted) + frames
        invariant Filling(tickBuffer.Shared(), SDO, EncodeRequests(open))
        invariant visited == i
        invariant State(next) == Completions.Run(start, Completions.Schedule(others, now, i))
        invariant Packed(frames, groups, open, Completions.RequestsOf(start, Completions.Schedule(others, now, i)))
        invariant |tickBuffer.Shared().free| + |frames| >= room
      {
        ghost var sent;
        ok, next, sent, groups, open := VisitUnit(i, now, others, next, start, frames, groups, open);
        frames, visited := frames + sent, i + 1;
        if !ok {
          PackedBound(frames, groups, open, start, others, now, i + 1);
          return;
        }
      }
      PackedBound(frames, groups, open, start, others, now, storage.Length);
      ok := true;
    }

    /** One turn of the loop: what the others do, the unit's tick, then its request. */
    method VisitUnit(i: nat, now: int, others: seq<seq<Completions.Event>>, accepted: nat,
                     ghost start: Completions.System, ghost frames: seq<seq<Byte>>,
                     ghost groups: seq<seq<Request>>, ghost open: seq<Request>)
      returns (ok: bool, next: nat, ghost sent: seq<seq<Byte>>, ghost groups': seq<seq<Request>>,
               ghost open': seq<Request>)
      requires Valid() && i < storage.Length == |others| && Completions.NoTicks(others)
      requires State(accepted) == Completions.Run(start, Completions.Schedule(others, now, i))
      requires Filling(tickBuffer.Shared(), SDO, EncodeRequests(open))
      requires Packed(frames, groups, open, Completions.RequestsOf(start, Completions.Schedule(others, now, i)))
      modifies storage, `log, tickBuffer, tickBuffer.freeTransfers, tickBuffer.freeTransfers.storage
      ensures Valid() && tickBuffer.submitted == old(tickBuffer.submitted) + sent
      ensures State(next) == Completions.Run(start, Completions.Schedule(others, now, i + 1))
      ensures Packed(frames + sent, groups', open',
                     Completions.RequestsOf(start, Completions.Schedule(others, now, i + 1)))
      ensures |tickBuffer.Shared().free| + |sent| >= |old(tickBuffer.Shared().free)|
      ensures ok ==> Filling(tickBuffer.Shared(), SDO, EncodeRequests(open'))
      ensures !ok ==> tickBuffer.Shared().free == []
    {
      hide Ok, Filling, EncodeRequests, Packed, Completions.Run, Completions.RequestsOf, Completions.Schedule;
      hide Conserved, AsyncTransmitBuffer.Shared, RingBuffers.RingBuffer.Valid, RingBuffers.RingBuffer.Contents;
      hide Tick, Callbacks, Completions.Step;
      Completions.ScheduleMore(start, others, now, i);
      next := PerformAll(others[i], accepted);
      var request := TickTurn(i, now, next);
      ok, sent, groups', open' := Send(request, frames, groups, open,
                                       Completions.RequestsOf(start, Completions.Schedule(others, now, i)));
    }

    /** The unit's turn, as an event. */
    method TickTurn(i: nat, now: int, ghost accepted: nat) returns (request: Option<Request>)
      requires i < storage.Length
      modifies storage, `log
      ensures State(accepted) == Completions.Step(old(State(accepted)), Completions.TickUnit(i, now))
      ensures Issued(old(storage[i]), now) == if request.Some? then [request.value] else []
    {
      hide Tick, Callbacks;
      request := TickUnit(i, now);
    }

    /** Sends the request of one unit, if it has one, and keeps the packing account. */
    method Send(request: Option<Request>, ghost frames: seq<seq<Byte>>, ghost groups: seq<seq<Request>>,
                ghost open: seq<Request>, ghost issued: seq<Request>)
      returns (ok: bool, ghost sent: seq<seq<Byte>>, ghost groups': seq<seq<Request>>, ghost open': seq<Request>)
      requires Valid() && Filling(tickBuffer.Shared(), SDO, EncodeRequests(open))
      requires Packed(frames, groups, open, issued)
      modifies tickBuffer, tickBuffer.freeTransfers, tickBuffer.freeTransfers.storage
      ensures Valid() && tickBuffer.submitted == old(tickBuffer.submitted) + sent
      ensures Packed(frames + sent, groups', open', issued + if request.Some? then [request.value] else [])
      ensures |tickBuffer.Shared().free| + |sent| >= |old(tickBuffer.Shared().free)|
      ensures ok ==> Filling(tickBuffer.Shared(), SDO, EncodeRequests(open'))
      ensures !ok ==> tickBuffer.Shared().free == []
    {
      hide Ok, FreshFrom, Filling, EncodeRequest, EncodeRequests, SealedWith, Packed;
      ok, sent, groups', open' := true, [], groups, open;
      if request.None? {
        assert frames + [] == frames && issued + [] == issued;
        return;
      }
      var r := request.value;
      ok, sent := tickBuffer.AppendRecord(SDO, EncodeRequest(r), EncodeRequests(open));
      PackOneMore(frames, groups, open, issued, r, sent);
      if sent != [] {
        groups', open' := groups + [open], [r];
        assert [] + EncodeRequest(r) == EncodeRequest(r);
      } else {
        open' := open + [r];
        assert frames + [] == frames;
      }
    }

    /** The end of a tick: the open transfer goes out, empty or not. */
    method Flush(ghost open: seq<Request>) returns (ok: bool, ghost last: seq<seq<Byte>>)
      requires Valid() && Filling(tickBuffer.Shared(), SDO, EncodeRequests(open))
      modifies tickBuffer, tickBuffer.freeTransfers, tickBuffer.freeTransfers.storage
      ensures Valid()
      ensures ok ==> FreshFrom(tickBuffer.Shared(), 0)
      ensures ok ==> tickBuffer.submitted == old(tickBuffer.submitted) + last && |last| == 1 && Carries(last[0], open)
      ensures |old(tickBuffer.Shared().free)| > 0 ==> ok
    {
      hide Ok, FreshFrom, Filling, EncodeRequests, SealedWith, Carries, Frame;
      FillingBounded(tickBuffer.Shared(), SDO, EncodeRequests(open));
      ghost var closed;
      last := [];
      ok, closed := tickBuffer.AppendRecord(SDO, [], EncodeRequests(open));
      if !ok {
        return;
      }
      ghost var front := tickBuffer.transfers[tickBuffer.Shared().free[0]];
      LastFrame(tickBuffer.Shared(), open);
      var sent := tickBuffer.TriggerTransmission(true);
      last := [Frame(front)];
    }
  }

  /** What the device decodes from the frames of one tick is what its turns asked for, in unit order. */
  lemma DeviceDecodesTick(frames: seq<seq<Byte>>, groups: seq<seq<Request>>, s: Completions.System,
                          es: seq<Completions.Event>)
    requires |frames| == |groups| && forall i :: 0 <= i < |frames| ==> Carries(frames[i], groups[i])
    requires Flatten(groups) == Completions.RequestsOf(s, es)
    ensures Flatten(seq(|frames|, i requires 0 <= i < |frames| => DecodeFrame(frames[i])))
         == Completions.RequestsOf(s, es)
  {
    hide Carries, DecodeFrame, Completions.RequestsOf;
    Completions.RequestsWellFormed(s, es);
    forall i | 0 <= i < |frames|
      ensures DecodeFrame(frames[i]) == groups[i]
    {
      FlattenMembers(groups, i);
      CarriedRequestsDecode(frames[i], groups[i]);
    }
    assert seq(|frames|, i requires 0 <= i < |frames| => DecodeFrame(frames[i])) == groups;
  }

  lemma PackedFlat(frames: seq<seq<Byte>>, groups: seq<seq<Request>>, open: seq<Request>, issued: seq<Request>)
    requires Packed(frames, groups, open, issued)
    ensures |frames| == |groups| && forall i :: 0 <= i < |frames| ==> Carries(frames[i], groups[i])
    ensures Flatten(groups) + open == issued
  {
  }

  lemma StartPacking(v: View, s: Completions.System, n: nat)
    requires FreshFrom(v, 0) && Ok(v, n)
    ensures Filling(v, SDO, EncodeRequests([]))
    ensures Packed([], [], [], Completions.RequestsOf(s, []))
    ensures Completions.Run(s, []) == s
  {
    AllFreshFilling(v, SDO, n);
  }

  lemma PackedBound(frames: seq<seq<Byte>>, groups: seq<seq<Request>>, open: seq<Request>, s: Completions.System,
                    others: seq<seq<Completions.Event>>, now: int, n: nat)
    requires n <= |others| == |s.units| && Completions.NoTicks(others)
    requires Packed(frames, groups, open, Completions.RequestsOf(s, Completions.Schedule(others, now, n)))
    ensures |frames| <= 12 * |others| / 491
  {
    Completions.ScheduleRequests(s, others, now, n);
    hide Packed, Completions.RequestsOf, Completions.Schedule;
    PackedCount(frames, groups, open, Completions.RequestsOf(s, Completions.Schedule(others, now, n)), |others|);
  }

  lemma FillingBounded(v: View, kind: Byte, bytes: seq<Byte>)
    requires Filling(v, kind, bytes)
    ensures |bytes| <= MAX_LENGTH - PREFILL - CRC
  {
  }

  lemma LastFrame(v: View, open: seq<Request>)
    requires v.free != [] && Filling(v, SDO, EncodeRequests(open) + []) && Kind(v.transfers[v.free[0]]) == SDO
    ensures Carries(Frame(v.transfers[v.free[0]]), open)
  {
    hide Carries, Frame, EncodeRequests;
    assert EncodeRequests(open) + [] == EncodeRequests(open);
    SealedFrameCarries(v.transfers[v.free[0]], open);
  }

  lemma PackedCount(frames: seq<seq<Byte>>, groups: seq<seq<Request>>, open: seq<Request>,
    issued: seq<Request>, units: nat)
    requires Packed(frames, groups, open, issued) && |issued| <= units
    ensures |frames| <= 12 * units / 491
  {
  }

  /** What a tick has put on the wire so far: complete frames with their requests, and the open transfer's requests. */
  ghost predicate Packed(frames: seq<seq<Byte>>, groups: seq<seq<Request>>, open: seq<Request>, issued: seq<Request>) {
    && |frames| == |groups|
    && (forall i :: 0 <= i < |frames| ==> Carries(frames[i], groups[i]))
    && Flatten(groups) + open == issued
    && 491 * |frames| + |EncodeRequests(open)| <= 12 * |issued|
  }

  /** A full frame closed on the way has at least 491 payload bytes; a record has at most 12. */
  lemma PackOneMore(frames: seq<seq<Byte>>, groups: seq<seq<Request>>, open: seq<Request>, issued: seq<Request>,
                    r: Request, closed: seq<seq<Byte>>)
    requires Packed(frames, groups, open, issued) && |closed| <= 1
    requires closed != [] ==> SealedWith(closed[0], SDO, EncodeRequests(open))
    requires closed != [] ==> PREFILL + |EncodeRequests(open)| + |EncodeRequest(r)| + CRC > MAX_LENGTH
    ensures closed == [] ==> Packed(frames, groups, open + [r], issued + [r])
    ensures closed != [] ==> Packed(frames + closed, groups + [open], [r], issued + [r])
    ensures EncodeRequests(open + [r]) == EncodeRequests(open) + EncodeRequest(r)
    ensures EncodeRequests([r]) == EncodeRequest(r)
  {
    EncodeRequestsAppend(open, r);
    OneRequest(r);
    hide EncodeRequest, EncodeRequests, Carries, Flatten;
    assert Flatten(groups) + (open + [r]) == issued + [r];
    if closed != [] {
      SealedCarries(closed[0], open);
      FlattenAppend(groups, open);
    }
  }

  lemma OneRequest(r: Request)
    ensures EncodeRequests([r]) == EncodeRequest(r)
  {
    hide EncodeRequest;
    assert EncodeRequests([r]) == EncodeRequest(r) + EncodeRequests([]);
  }

  lemma SealedCarries(f: seq<Byte>, rs: seq<Request>)
    requires SealedWith(f, SDO, EncodeRequests(rs))
    ensures Carries(f, rs)
  {
    hide Frame, Carries, EncodeRequests;
    var t :| Open(t) && Kind(t) == SDO && Payload(t) == EncodeRequests(rs) && f == Frame(t);
    SealedFrameCarries(t, rs);
  }

  function Prepend(done: seq<Reply>, p: Parsed): Parsed {
    p.(replies := done + p.replies)
  }

  lemma PrependReplies(done: seq<Reply>, p: Parsed)
    ensures Prepend(done, p).replies == done + p.replies && Prepend(done, p).end == p.end
    ensures p.replies == [] ==> Prepend(done, p).replies == done
  {
  }

  lemma PrependNothing(p: Parsed)
    ensures Prepend([], p) == p
  {
  }

  lemma PrependMore(done: seq<Reply>, r: Reply, p: Parsed)
    ensures Prepend(done, Prepend([r], p)) == Prepend(done + [r], p)
  {
    assert done + ([r] + p.replies) == (done + [r]) + p.replies;
  }

  lemma SubSlice<T>(s: seq<T>, start: nat, end: nat, at: nat, n: nat)
    requires start <= at && at + n <= end <= |s|
    ensures s[start..end][at - start..][..n] == s[at..at + n]
    ensures s[start..end][at - start..][n..] == s[start..end][at + n - start..]
  {
  }

  lemma HandleNone(us: seq<StorageUnit>, index: map<Key, nat>)
    ensures HandleReplies(us, index, []) == Handled(us, true)
  {
  }

  lemma HandleOneMore(us: seq<StorageUnit>, index: map<Key, nat>, rs: seq<Reply>, r: Reply)
    requires HandleReplies(us, index, rs).known
    ensures HandleReplies(us, index, rs + [r]) == StorageUnits.HandleReply(HandleReplies(us, index, rs).units, index, r)
  {
    assert (rs + [r])[..|rs + [r]| - 1] == rs;
  }

  /** One turn of the parsing loop. */
  lemma ParseUnfold(bs: seq<Byte>)
    ensures bs == [] || bs[0] == 0 ==> Parse(bs) == Parsed([], Finished)
    ensures bs != [] && bs[0] != 0 && ReplyBody(bs[0]).None? ==> Parse(bs) == Parsed([], Invalid(bs[0]))
    ensures bs != [] && bs[0] != 0 && ReplyBody(bs[0]).Some? ==>
      var n := 4 + ReplyBody(bs[0]).value;
      Parse(bs) == if |bs| < n then Parsed([], Truncated) else Prepend([DecodeReply(bs[..n])], Parse(bs[n..]))
  {
    hide DecodeReply, ReplyBody;
  }
}
