/** What a unit's value and version come from on any run: what was stored last, and how often it has been read. */
module StoredValues {
  import opened Common
  import opened Wire
  import opened StorageUnits
  import opened Completions
  import opened Deadlines

  /** An answer delivered to unit `id` while it is reading. */
  predicate Answers(s: System, e: Event, id: nat) {
    && Reaches(s, e, id) && e.reply.ReadSuccess? && id < |s.units|
    && !Idle(s.units[id]) && s.units[id].operation.state == READING
  }

  /** What the event stores as the unit's value: a write call's data or an answer, nothing otherwise. */
  function Stores(s: System, e: Event, id: nat): Option<nat> {
    if Answers(s, e, id) then Some(e.reply.value)
    else if e.CallWriteUnchecked? && e.id == id then Some(e.data)
    else if e.CallWrite? && e.id == id && id < |s.units| && Idle(s.units[id]) then Some(e.data)
    else None
  }

  /** The last of these on a run, the value at its start if there is none. */
  function LastStored(s: System, es: seq<Event>, id: nat): nat
    requires id < |s.units|
  {
    if es == [] then s.units[id].value
    else
      var before := es[..|es| - 1];
      Stores(Run(s, before), es[|es| - 1], id).GetOr(LastStored(s, before, id))
  }

  /** How many answers the unit has taken on a run. */
  function Reads(s: System, es: seq<Event>, id: nat): nat {
    if es == [] then 0
    else
      var before := es[..|es| - 1];
      Reads(s, before, id) + if Answers(Run(s, before), es[|es| - 1], id) then 1 else 0
  }

  /** Counts 1, 2, ... up to the highest 32-bit value and starts over from 1; zero before the first. */
  function VersionAfter(taken: nat): nat {
    if taken == 0 then 0 else 1 + (taken - 1) % 0xFFFF_FFFF
  }

  lemma VersionCounts(taken: nat)
    ensures VersionAfter(taken) < 0x1_0000_0000
    ensures NextVersion(VersionAfter(taken)) == VersionAfter(taken + 1)
  {
  }

  lemma ReplyStores(u: StorageUnit, r: Reply)
    ensures var taken, v := r.ReadSuccess? && !Idle(u) && u.operation.state == READING, OnReply(u, r);
      && v.value == (if taken then r.value else u.value)
      && v.version == (if taken then NextVersion(u.version) else u.version)
  {
    hide NextVersion, Truncate;
  }

  /** One event: only a write call, or an answer to a unit that is reading, changes the value. */
  lemma StepStores(s: System, e: Event, id: nat)
    requires id < |s.units|
    ensures var u, u' := s.units[id], Step(s, e).units[id];
      && u'.value == Stores(s, e, id).GetOr(u.value)
      && u'.version == (if Answers(s, e, id) then NextVersion(u.version) else u.version)
  {
    hide NextVersion, Truncate, Deadline;
    if e.Deliver? {
      ReplyStores(s.units[id], e.reply);
      hide OnReply;
    }
  }

  /** On every run the unit's value is what was last stored by a write call or by an answer it was waiting for. */
  lemma {:induction false} ValueIsLastStored(s: System, es: seq<Event>, id: nat)
    requires id < |s.units|
    ensures Run(s, es).units[id].value == LastStored(s, es, id)
  {
    hide Step, Stores;
    if es != [] {
      ValueIsLastStored(s, es[..|es| - 1], id);
      StepStores(Run(s, es[..|es| - 1]), es[|es| - 1], id);
    }
  }

  /** The version counts the answers taken, skipping zero where it wraps, so it is zero exactly before the first. */
  lemma {:induction false} VersionCountsReads(s: System, es: seq<Event>, id: nat)
    requires id < |s.units| && s.units[id].version == 0
    ensures Run(s, es).units[id].version == VersionAfter(Reads(s, es, id))
    ensures Run(s, es).units[id].version == 0 <==> Reads(s, es, id) == 0
  {
    hide Step, Answers, NextVersion;
    if es != [] {
      VersionCountsReads(s, es[..|es| - 1], id);
      StepStores(Run(s, es[..|es| - 1]), es[|es| - 1], id);
      VersionCounts(Reads(s, es[..|es| - 1], id));
    }
  }
}
