/**
 Soft and hard finality: the tracker that records both kinds of certificate in
 whatever order they arrive, and what it promises over a whole run.
 */
module Finality {
  import opened Prelude
  import opened Bytes
  import opened Certificates

  datatype Level = Pending | Soft | Hard

  datatype HardCert = HardCert(slot: u64, blockHash: Digest, stateRoot: Digest, bitmap: Bitmap, signatures: seq<seq<byte>>)

  datatype Status = Status(slot: u64, blockHash: Digest, level: Level, qc: QuorumCert, hardCert: Option<HardCert>)

  datatype Checkpoint = Checkpoint(slot: u64, blockHash: Digest, stateRoot: Digest, cert: HardCert)

  datatype Tracker = Tracker(checkpoint: Option<Checkpoint>, pending: seq<Status>, highestSoft: u64, highestHard: u64)

  predicate IsFor(s: Status, slot: u64, blockHash: Digest)
  {
    s.slot == slot && s.blockHash == blockHash
  }

  // ---------- The operations on values ----------

  function SoftRecorded(t: Tracker, slot: u64, blockHash: Digest, qc: QuorumCert, committeeSize: nat): Tracker
  {
    if |qc.bitmap| < QuorumFor(committeeSize) then t
    else t.(highestSoft := if slot > t.highestSoft then slot else t.highestSoft,
            pending := t.pending + [Status(slot, blockHash, Soft, qc, None)])
  }

  function Promoted(s: Status, cert: HardCert): Status
  {
    if IsFor(s, cert.slot, cert.blockHash) then s.(level := Hard, hardCert := Some(cert)) else s
  }

  function PromoteAll(pending: seq<Status>, cert: HardCert): seq<Status>
  {
    seq(|pending|, i requires 0 <= i < |pending| => Promoted(pending[i], cert))
  }

  /** The entries past `slot`, in order. */
  function Retained(pending: seq<Status>, slot: u64): seq<Status>
  {
    if pending == [] then []
    else
      var front := Retained(pending[..|pending| - 1], slot);
      if pending[|pending| - 1].slot > slot then front + [pending[|pending| - 1]] else front
  }

  predicate Advances(t: Tracker, cert: HardCert)
  {
    t.checkpoint.Some? ==> cert.slot > t.checkpoint.value.slot
  }

  function HardRecorded(t: Tracker, cert: HardCert): Tracker
  {
    var pending := PromoteAll(t.pending, cert);
    if !Advances(t, cert) then t.(pending := pending)
    else Tracker(Some(Checkpoint(cert.slot, cert.blockHash, cert.stateRoot, cert)),
                 Retained(pending, cert.slot),
                 t.highestSoft,
                 if cert.slot > t.highestHard then cert.slot else t.highestHard)
  }

  function Reorgable(t: Tracker, slot: u64): bool
  {
    t.checkpoint.Some? ==> slot > t.checkpoint.value.slot
  }

  /** The level of the first entry for the block, if there is one. */
  function FirstLevel(pending: seq<Status>, slot: u64, blockHash: Digest): Level
  {
    if pending == [] then Pending
    else if IsFor(pending[0], slot, blockHash) then pending[0].level
    else FirstLevel(pending[1..], slot, blockHash)
  }

  /** At or below the checkpoint by slot and hash, or strictly below it by slot alone. */
  predicate AtCheckpoint(t: Tracker, slot: u64, blockHash: Digest)
  {
    && t.checkpoint.Some?
    && var cp := t.checkpoint.value;
       slot < cp.slot || (slot == cp.slot && blockHash == cp.blockHash)
  }

  function LevelOf(t: Tracker, slot: u64, blockHash: Digest): Level
  {
    if AtCheckpoint(t, slot, blockHash) then Hard else FirstLevel(t.pending, slot, blockHash)
  }

  // ---------- The tracker ----------

  class FinalityTracker {
    var latestCheckpoint: Option<Checkpoint>
    var pending: seq<Status>
    var highestSoftSlot: u64
    var highestHardSlot: u64

    ghost function Value(): Tracker
      reads this
    {
      Tracker(latestCheckpoint, pending, highestSoftSlot, highestHardSlot)
    }

    constructor ()
      ensures Value() == Fresh()
    {
      latestCheckpoint, pending, highestSoftSlot, highestHardSlot := None, [], 0, 0;
    }

    method RecordSoftFinality(slot: u64, blockHash: Digest, qc: QuorumCert, committeeSize: nat)
      modifies this
      ensures Value() == SoftRecorded(old(Value()), slot, blockHash, qc, committeeSize)
    {
      if |qc.bitmap| >= QuorumFor(committeeSize) {
        if slot > highestSoftSlot {
          highestSoftSlot := slot;
        }
        pending := pending + [Status(slot, blockHash, Soft, qc, None)];
      }
    }

    method PromotePending(cert: HardCert)
      modifies this`pending
      ensures pending == PromoteAll(old(pending), cert)
    {
      for i := 0 to |pending|
        invariant |pending| == |old(pending)|
        invariant forall j :: 0 <= j < |pending| ==>
                    pending[j] == if j < i then Promoted(old(pending)[j], cert) else old(pending)[j]
      {
        if pending[i].slot == cert.slot && pending[i].blockHash == cert.blockHash {
          pending := pending[i := pending[i].(level := Hard, hardCert := Some(cert))];
        }
      }
      assert pending == PromoteAll(old(pending), cert);
    }

    method PrunePending(slot: u64)
      modifies this`pending
      ensures pending == Retained(old(pending), slot)
    {
      var kept := [];
      for i := 0 to |pending|
        invariant pending == old(pending) && kept == Retained(pending[..i], slot)
      {
        assert pending[..i + 1][..i] == pending[..i];
        if pending[i].slot > slot {
          kept := kept + [pending[i]];
        }
      }
      assert pending[..|pending|] == pending;
      pending := kept;
    }

    method RecordHardFinality(cert: HardCert)
      modifies this
      ensures Value() == HardRecorded(old(Value()), cert)
    {
      PromotePending(cert);
      if latestCheckpoint.Some? && cert.slot <= latestCheckpoint.value.slot {
        return;
      }
      if cert.slot > highestHardSlot {
        highestHardSlot := cert.slot;
      }
      latestCheckpoint := Some(Checkpoint(cert.slot, cert.blockHash, cert.stateRoot, cert));
      PrunePending(cert.slot);
    }

    method CanReorg(slot: u64) returns (ok: bool)
      ensures ok == Reorgable(Value(), slot)
    {
      ok := latestCheckpoint.None? || slot > latestCheckpoint.value.slot;
    }

    method FinalityLevel(slot: u64, blockHash: Digest) returns (level: Level)
      ensures level == LevelOf(Value(), slot, blockHash)
    {
      if latestCheckpoint.Some? {
        var cp := latestCheckpoint.value;
        if slot == cp.slot && blockHash == cp.blockHash {
          return Hard;
        }
        if slot < cp.slot {
          return Hard;
        }
      }
      assert pending[0..] == pending;
      for i := 0 to |pending|
        invariant FirstLevel(pending, slot, blockHash) == FirstLevel(pending[i..], slot, blockHash)
      {
        if pending[i].slot == slot && pending[i].blockHash == blockHash {
          return pending[i].level;
        }
        assert pending[i..][1..] == pending[i + 1..];
      }
      level := Pending;
    }
  }

  // ---------- Runs ----------

  datatype Event =
    | RecordSoft(slot: u64, blockHash: Digest, qc: QuorumCert, committeeSize: nat)
    | RecordHard(cert: HardCert)

  function Fresh(): Tracker
  {
    Tracker(None, [], 0, 0)
  }

  function Apply(t: Tracker, e: Event): Tracker
  {
    match e
    case RecordSoft(slot, blockHash, qc, committeeSize) => SoftRecorded(t, slot, blockHash, qc, committeeSize)
    case RecordHard(cert) => HardRecorded(t, cert)
  }

  function Run(events: seq<Event>): Tracker
  {
    if events == [] then Fresh() else Apply(Run(events[..|events| - 1]), events[|events| - 1])
  }

  lemma {:induction false} RunNext(events: seq<Event>, e: Event)
    ensures Run(events + [e]) == Apply(Run(events), e)
  {
    assert (events + [e])[..|events|] == events;
  }

  /** Entries promoted to Hard lie at or below the checkpoint, which is the highest hard slot. */
  ghost predicate Consistent(t: Tracker)
  {
    && (forall i :: 0 <= i < |t.pending| && t.pending[i].level == Hard ==> !Reorgable(t, t.pending[i].slot))
    && t.highestHard == (if t.checkpoint.Some? then t.checkpoint.value.slot else 0)
    && (forall i :: 0 <= i < |t.pending| ==> t.pending[i].slot <= t.highestSoft)
  }

  lemma {:induction false} RetainedMembers(pending: seq<Status>, slot: u64)
    ensures forall s :: s in Retained(pending, slot) <==> s in pending && s.slot > slot
  {
    if pending != [] {
      var front, last := pending[..|pending| - 1], pending[|pending| - 1];
      RetainedMembers(front, slot);
      assert pending == front + [last];
    }
  }

  lemma {:induction false} PromotedMembers(pending: seq<Status>, cert: HardCert, s: Status)
    requires s in PromoteAll(pending, cert)
    ensures exists was :: was in pending && s == Promoted(was, cert)
  {
    var i :| 0 <= i < |pending| && PromoteAll(pending, cert)[i] == s;
    assert pending[i] in pending;
  }

  lemma {:induction false} HardKeepsConsistent(t: Tracker, cert: HardCert)
    requires Consistent(t)
    ensures Consistent(HardRecorded(t, cert))
  {
    var t' := HardRecorded(t, cert);
    RetainedMembers(PromoteAll(t.pending, cert), cert.slot);
    forall i | 0 <= i < |t'.pending|
      ensures t'.pending[i].slot <= t'.highestSoft
      ensures t'.pending[i].level == Hard ==> !Reorgable(t', t'.pending[i].slot)
    {
      var s := t'.pending[i];
      assert s in t'.pending;
      assert s in PromoteAll(t.pending, cert);
      PromotedMembers(t.pending, cert, s);
      var was :| was in t.pending && s == Promoted(was, cert);
      var j :| 0 <= j < |t.pending| && t.pending[j] == was;
    }
  }

  lemma {:induction false} RunIsConsistent(events: seq<Event>)
    ensures Consistent(Run(events))
  {
    if events != [] {
      var front, e := events[..|events| - 1], events[|events| - 1];
      RunIsConsistent(front);
      if e.RecordHard? {
        HardKeepsConsistent(Run(front), e.cert);
      }
    }
  }

  // ---------- What a step does to a level ----------

  ghost predicate HasEntry(pending: seq<Status>, slot: u64, blockHash: Digest)
  {
    exists i :: 0 <= i < |pending| && IsFor(pending[i], slot, blockHash)
  }

  lemma {:induction false} FirstLevelSnoc(pending: seq<Status>, s: Status, slot: u64, blockHash: Digest)
    ensures FirstLevel(pending + [s], slot, blockHash) ==
            if HasEntry(pending, slot, blockHash) then FirstLevel(pending, slot, blockHash)
            else if IsFor(s, slot, blockHash) then s.level else Pending
  {
    if pending != [] && !IsFor(pending[0], slot, blockHash) {
      FirstLevelSnoc(pending[1..], s, slot, blockHash);
      assert (pending + [s])[1..] == pending[1..] + [s];
      if HasEntry(pending, slot, blockHash) {
        var i :| 0 <= i < |pending| && IsFor(pending[i], slot, blockHash);
        assert IsFor(pending[1..][i - 1], slot, blockHash);
      }
    }
  }

  lemma {:induction false} FirstLevelPending(pending: seq<Status>, slot: u64, blockHash: Digest)
    requires forall i :: 0 <= i < |pending| ==> !IsFor(pending[i], slot, blockHash)
    ensures FirstLevel(pending, slot, blockHash) == Pending
  {
    if pending != [] {
      FirstLevelPending(pending[1..], slot, blockHash);
    }
  }

  lemma {:induction false} FirstLevelFound(pending: seq<Status>, slot: u64, blockHash: Digest) returns (i: nat)
    requires FirstLevel(pending, slot, blockHash) != Pending
    ensures i < |pending| && IsFor(pending[i], slot, blockHash)
    ensures pending[i].level == FirstLevel(pending, slot, blockHash)
  {
    if IsFor(pending[0], slot, blockHash) {
      i := 0;
    } else {
      i := FirstLevelFound(pending[1..], slot, blockHash);
      i := i + 1;
    }
  }

  lemma {:induction false} FirstLevelPromoted(pending: seq<Status>, cert: HardCert, slot: u64, blockHash: Digest)
    ensures FirstLevel(PromoteAll(pending, cert), slot, blockHash) ==
            if slot == cert.slot && blockHash == cert.blockHash && HasEntry(pending, slot, blockHash)
            then Hard else FirstLevel(pending, slot, blockHash)
  {
    if pending != [] {
      FirstLevelPromoted(pending[1..], cert, slot, blockHash);
      assert PromoteAll(pending, cert)[1..] == PromoteAll(pending[1..], cert);
      if HasEntry(pending, slot, blockHash) && !IsFor(pending[0], slot, blockHash) {
        var i :| 0 <= i < |pending| && IsFor(pending[i], slot, blockHash);
        assert IsFor(pending[1..][i - 1], slot, blockHash);
      }
    }
  }

  lemma {:induction false} FirstLevelRetained(pending: seq<Status>, cut: u64, slot: u64, blockHash: Digest)
    ensures FirstLevel(Retained(pending, cut), slot, blockHash) ==
            if slot > cut then FirstLevel(pending, slot, blockHash) else Pending
  {
    RetainedMembers(pending, cut);
    if slot <= cut {
      var kept := Retained(pending, cut);
      forall i | 0 <= i < |kept|
        ensures !IsFor(kept[i], slot, blockHash)
      {
        assert kept[i] in kept;
      }
      FirstLevelPending(kept, slot, blockHash);
    } else if pending != [] {
      var front, last := pending[..|pending| - 1], pending[|pending| - 1];
      assert pending == front + [last];
      FirstLevelRetained(front, cut, slot, blockHash);
      FirstLevelSnoc(front, last, slot, blockHash);
      var kept := Retained(front, cut);
      RetainedMembers(front, cut);
      FirstLevelSnoc(kept, last, slot, blockHash);
      SameMatches(front, kept, cut, slot, blockHash);
      if !HasEntry(front, slot, blockHash) {
        FirstLevelPending(front, slot, blockHash);
      }
    }
  }

  lemma {:induction false} SameMatches(front: seq<Status>, kept: seq<Status>, cut: u64, slot: u64, blockHash: Digest)
    requires slot > cut && forall s :: s in kept <==> s in front && s.slot > cut
    ensures HasEntry(front, slot, blockHash) <==> HasEntry(kept, slot, blockHash)
  {
    if HasEntry(front, slot, blockHash) {
      var i :| 0 <= i < |front| && IsFor(front[i], slot, blockHash);
      assert front[i] in kept;
    }
    if HasEntry(kept, slot, blockHash) {
      var i :| 0 <= i < |kept| && IsFor(kept[i], slot, blockHash);
      assert kept[i] in front;
    }
  }

  /** The level of any block after a hard certificate, in terms of the state before it. */
  lemma {:induction false} LevelAfterHard(t: Tracker, cert: HardCert, slot: u64, blockHash: Digest)
    ensures LevelOf(HardRecorded(t, cert), slot, blockHash) ==
            if Advances(t, cert) then
              if slot < cert.slot || (slot == cert.slot && blockHash == cert.blockHash) then Hard
              else if slot == cert.slot then Pending
              else FirstLevel(t.pending, slot, blockHash)
            else if slot == cert.slot && blockHash == cert.blockHash && HasEntry(t.pending, slot, blockHash) then Hard
            else LevelOf(t, slot, blockHash)
  {
    FirstLevelPromoted(t.pending, cert, slot, blockHash);
    FirstLevelRetained(PromoteAll(t.pending, cert), cert.slot, slot, blockHash);
  }

  lemma {:induction false} StepKeepsHard(t: Tracker, e: Event, slot: u64, blockHash: Digest)
    requires Consistent(t) && LevelOf(t, slot, blockHash) == Hard
    ensures LevelOf(Apply(t, e), slot, blockHash) == Hard
  {
    if !AtCheckpoint(t, slot, blockHash) {
      var i := FirstLevelFound(t.pending, slot, blockHash);
      assert HasEntry(t.pending, slot, blockHash);
      if e.RecordSoft? {
        FirstLevelSnoc(t.pending, Status(e.slot, e.blockHash, Soft, e.qc, None), slot, blockHash);
      }
    }
    if e.RecordHard? {
      LevelAfterHard(t, e.cert, slot, blockHash);
    }
  }

  /**
   Finality is permanent. In every run of soft and hard recordings in any order:
   a block that is Hard stays Hard, a slot that can no longer be reorganised never
   can again, and the checkpoint never moves back.
   */
  lemma {:induction false} HardIsPermanent(events: seq<Event>, more: seq<Event>, slot: u64, blockHash: Digest)
    ensures LevelOf(Run(events), slot, blockHash) == Hard ==> LevelOf(Run(events + more), slot, blockHash) == Hard
    ensures !Reorgable(Run(events), slot) ==> !Reorgable(Run(events + more), slot)
    ensures Run(events).checkpoint.Some? ==>
              && Run(events + more).checkpoint.Some?
              && Run(events).checkpoint.value.slot <= Run(events + more).checkpoint.value.slot
  {
    if more == [] {
      assert events + more == events;
    } else {
      var front, e := more[..|more| - 1], more[|more| - 1];
      HardIsPermanent(events, front, slot, blockHash);
      assert events + more == (events + front) + [e];
      RunNext(events + front, e);
      RunIsConsistent(events + front);
      if LevelOf(Run(events), slot, blockHash) == Hard {
        StepKeepsHard(Run(events + front), e, slot, blockHash);
      }
    }
  }

  /**
   Soft finality is not permanent: a hard certificate takes it away exactly when it
   moves the checkpoint to the block's own slot with a different block hash.
   */
  lemma {:induction false} SoftLostIff(t: Tracker, cert: HardCert, slot: u64, blockHash: Digest)
    requires LevelOf(t, slot, blockHash) == Soft
    ensures LevelOf(HardRecorded(t, cert), slot, blockHash) == Pending <==>
            Advances(t, cert) && cert.slot == slot && cert.blockHash != blockHash
  {
    LevelAfterHard(t, cert, slot, blockHash);
  }

  /** Some recorded certificate is for the block itself or for a later slot. */
  ghost predicate Certified(events: seq<Event>, slot: u64, blockHash: Digest)
  {
    exists e :: e in events && e.RecordHard? &&
                (e.cert.slot > slot || (e.cert.slot == slot && e.cert.blockHash == blockHash))
  }

  ghost predicate Sourced(events: seq<Event>, t: Tracker)
  {
    && (t.checkpoint.Some? ==>
          && RecordHard(t.checkpoint.value.cert) in events
          && t.checkpoint.value.slot == t.checkpoint.value.cert.slot
          && t.checkpoint.value.blockHash == t.checkpoint.value.cert.blockHash)
    && (forall s :: s in t.pending && s.level == Hard ==>
          && s.hardCert.Some? && RecordHard(s.hardCert.value) in events
          && s.slot == s.hardCert.value.slot && s.blockHash == s.hardCert.value.blockHash)
  }

  lemma {:induction false} RunIsSourced(events: seq<Event>)
    ensures Sourced(events, Run(events))
  {
    if events != [] {
      var front, e := events[..|events| - 1], events[|events| - 1];
      RunIsSourced(front);
      assert events == front + [e];
      if e.RecordHard? {
        var t := Run(front);
        RetainedMembers(PromoteAll(t.pending, e.cert), e.cert.slot);
        forall s | s in Apply(t, e).pending && s.level == Hard
          ensures s.hardCert.Some? && RecordHard(s.hardCert.value) in events
          ensures s.slot == s.hardCert.value.slot && s.blockHash == s.hardCert.value.blockHash
        {
          PromotedMembers(t.pending, e.cert, s);
        }
      }
    }
  }

  /** A block is Hard only because some certificate made it so: soft recordings alone never do. */
  lemma {:induction false} HardIsCertified(events: seq<Event>, slot: u64, blockHash: Digest)
    requires LevelOf(Run(events), slot, blockHash) == Hard
    ensures Certified(events, slot, blockHash)
  {
    RunIsSourced(events);
    var t := Run(events);
    if AtCheckpoint(t, slot, blockHash) {
      assert RecordHard(t.checkpoint.value.cert) in events;
    } else {
      var i := FirstLevelFound(t.pending, slot, blockHash);
      assert t.pending[i] in t.pending;
      assert RecordHard(t.pending[i].hardCert.value) in events;
    }
  }
}
