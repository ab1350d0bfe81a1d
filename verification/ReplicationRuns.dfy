/**
 Whole runs of a primary and a secondary. Transfers happen at any moment, also
 while a change is staged, and commits may fail. Three fields of the system are
 bookkeeping for the statements and steer nothing.
 */
module ReplicationRuns {
  import opened Model
  import opened Names
  import opened Serials
  import opened Records
  import opened FlatStore
  import opened Orphans
  import opened Listing
  import opened Validation
  import opened Zones
  import opened Transfer
  import opened Replication

  datatype Staging = Staging(change: Change, before: ZoneState)

  /**
   `marks` lists the commits since the start, the failed ones included. `position`
   counts the successful commits behind the secondary's serial. `seen` lists what
   the secondary was given, each change with whether the primary had kept it; `stale`
   says that it never was given a full transfer. `mail` holds every delta that was
   built and sent, so that any of them may arrive late, twice, out of order or never.
   */
  datatype System = System(primary: ZoneState, staging: Option<Staging>, secondary: ZoneState,
                           marks: seq<Mark>, position: nat, seen: seq<Mark>, stale: bool, mail: seq<Parcel>)

  /** A delta, with the commits its primary had made and the secondary's position when it was built. */
  datatype Parcel = Parcel(delta: Delta, marks: seq<Mark>, from: nat)

  datatype Event =
    | Stage(change: Change) | Commit | FailCommit | Undo
    | FullTransfer | Increment | Send | Deliver(k: nat)

  /**
   The update service admits one valid change at a time. A commit fails in its re-signing
   hook and is then rolled back.
   */
  ghost function Next(s: System, e: Event): System {
    match e
    case Stage(ch) =>
      if s.staging.Some? || !ValidChange(s.primary.name, ch) then s
      else s.(primary := Staged(s.primary, ch), staging := Some(Staging(ch, s.primary)))
    case Commit =>
      if s.staging.None? then s
      else
        var ch := s.staging.value.change;
        s.(primary := Committed(s.primary, ch), staging := None, marks := s.marks + [Mark(ch, false)])
    case FailCommit =>
      if s.staging.None? then s
      else
        var ch := s.staging.value.change;
        s.(primary := RolledBack(Committed(s.primary, ch), s.staging.value.before), staging := None,
           marks := s.marks + [Mark(ch, true)])
    case Undo =>
      if s.staging.None? then s
      else s.(primary := RolledBack(s.primary, s.staging.value.before), staging := None)
    case FullTransfer =>
      var (r, ok) := FullApplied(s.secondary, SnapshotOf(s.primary));
      s.(secondary := r, position := |KeptOf(s.marks)|, seen := AsKept(KeptOf(s.marks)) + InFlight(s), stale := !ok)
    case Increment =>
      var refreshed := Refreshed(s.primary, s.primary, s.primary, s.secondary);
      if refreshed.None? then s
      else
        s.(secondary := refreshed.value, position := |KeptOf(s.marks)|,
           seen := s.seen + ShippedMarks(s.marks, s.position))
    case Send =>
      var built := IXFR(s.primary, s.secondary.serial);
      if built.None? then s else s.(mail := s.mail + [Parcel(built.value, s.marks, s.position)])
    case Deliver(k) =>
      if k >= |s.mail| then s
      else
        var p := s.mail[k];
        var (r, ok) := DeltaApplied(s.secondary, p.delta);
        if !ok then s.(secondary := r)
        else s.(secondary := r, position := |KeptOf(p.marks)|, seen := s.seen + ShippedMarks(p.marks, p.from))
  }

  ghost function Run(s: System, events: seq<Event>): System {
    if events == [] then s else Next(Run(s, events[..|events| - 1]), events[|events| - 1])
  }

  ghost predicate Origin(z: ZoneState) {
    Primary(z) && ProperZone(z.name) && Reappliable(z.records) && z.meta.soa.serial == z.serial
  }

  /** As the application starts: the secondary has the primary's serial and whatever records. */
  ghost predicate Start(z: ZoneState, s: System) {
    && s.primary == z && s.staging.None? && s.marks == [] && s.position == 0 && s.seen == [] && s.stale
    && s.mail == []
    && s.secondary.serial == z.serial && WellFormed(s.secondary.records)
  }

  // The invariant

  /** The primary without the change in flight. */
  function Settled(s: System): ZoneState {
    if s.staging.None? then s.primary else s.primary.(records := s.staging.value.before.records)
  }

  /** A copy of the primary taken now holds the staged change, which nobody has kept yet. */
  function InFlight(s: System): seq<Mark> {
    if s.staging.None? then [] else [Mark(s.staging.value.change, true)]
  }

  /**
   The last commit failed. Its rollback restores the serial but not the SOA, which stays
   one ahead until the next commit.
   */
  predicate EndsLost(marks: seq<Mark>) {
    marks != [] && marks[|marks| - 1].lost
  }

  /** The settled primary is where the commits lead, and everything on it can be shipped again. */
  ghost predicate SettledOk(z: ZoneState, marks: seq<Mark>, w: ZoneState) {
    && ReachedBy(z, marks, w)
    && w.rule.Advancing?
    && w.meta.soa.serial == w.serial + (if EndsLost(marks) then 1 else 0)
    && MetaKept(w.meta, z.meta)
    && AllAccepted(AllOf(marks))
    && Reappliable(w.records)
  }

  ghost predicate StagingOk(z: ZoneState, s: System) {
    match s.staging
    case None => true
    case Some(staging) =>
      && ValidChange(z.name, staging.change)
      && s.primary.records == Apply(staging.before.records, staging.change)
      && staging.before.serial == s.primary.serial && staging.before.version == s.primary.version
  }

  /** The secondary stands at a commit, and holds what it was given, of which the primary kept its own log so far. */
  ghost predicate FollowerOk(z: ZoneState, log: seq<Change>, position: nat, seen: seq<Mark>, stale: bool,
                             q: ZoneState) {
    && position <= |log|
    && q.serial == z.serial + position
    && WellFormed(q.records)
    && (!stale ==> MetaKept(q.meta, z.meta))
    && (!stale ==> KeptOf(seen) == log[..position] && FlatOf(q.records) == Play(FlatOf(z.records), AllOf(seen)))
  }

  /** What a parcel carries: all entries between two commits, as they were when it was built. */
  ghost predicate ParcelOk(z: ZoneState, marks: seq<Mark>, p: Parcel) {
    && p.marks <= marks && p.from <= |KeptOf(p.marks)|
    && p.delta.range.start == z.serial + p.from && p.delta.range.end == z.serial + |KeptOf(p.marks)|
    && p.delta.ops == Ops(AllOf(ShippedMarks(p.marks, p.from)))
    && AllAccepted(AllOf(ShippedMarks(p.marks, p.from)))
  }

  ghost predicate MailOk(z: ZoneState, marks: seq<Mark>, mail: seq<Parcel>) {
    forall k :: 0 <= k < |mail| ==> ParcelOk(z, marks, mail[k])
  }

  ghost predicate Inv(z: ZoneState, s: System) {
    && Origin(z)
    && SettledOk(z, s.marks, Settled(s))
    && StagingOk(z, s)
    && FollowerOk(z, KeptOf(s.marks), s.position, s.seen, s.stale, s.secondary)
    && MailOk(z, s.marks, s.mail)
  }

  lemma {:induction false} StartOk(z: ZoneState, s: System)
    requires Origin(z) && Start(z, s)
    ensures Inv(z, s)
  {
    assert z.history + [] == z.history;
  }

  /** The primary as it can be seen: the commits and the change in flight, all of it fit for a snapshot. */
  lemma {:induction false} PrimaryFlat(z: ZoneState, s: System)
    requires Inv(z, s)
    ensures FlatOf(s.primary.records) == Play(FlatOf(z.records), KeptOf(s.marks) + AllOf(InFlight(s)))
    ensures Reappliable(s.primary.records)
    ensures s.primary.serial == Settled(s).serial == z.serial + |KeptOf(s.marks)|
  {
    var log := KeptOf(s.marks);
    if s.staging.Some? {
      var ch := s.staging.value.change;
      assert InFlight(s)[..0] == [] && AllOf(InFlight(s)) == [] + [ch] == [ch];
      ApplyRefinesStep(Settled(s).records, ch);
      UpdateKeepsReappliable(z.name, Settled(s).records, ch);
      PlaySnoc(FlatOf(z.records), log, ch);
    } else {
      assert log + [] == log;
    }
  }

  lemma {:induction false} StageKeeps(z: ZoneState, s: System, ch: Change)
    requires Inv(z, s)
    ensures Inv(z, Next(s, Stage(ch)))
  {
    assert Settled(Next(s, Stage(ch))) == Settled(s);
  }

  lemma {:induction false} UndoKeeps(z: ZoneState, s: System)
    requires Inv(z, s)
    ensures Inv(z, Next(s, Undo))
  {
    assert Settled(Next(s, Undo)) == Settled(s);
  }

  lemma {:induction false} CommitSettles(z: ZoneState, marks: seq<Mark>, w: ZoneState, mark: Mark)
    requires z.rule.Advancing? && SettledOk(z, marks, w) && Unwrapped(z.serial, marks + [mark])
    requires Accepted(mark.change) && Reappliable(Apply(w.records, mark.change))
    ensures SettledOk(z, marks + [mark], CommittedAs(w, mark))
  {
    CommittedParts(w, mark);
    ReachedNext(z, marks, w, mark, CommittedAs(w, mark));
    KeptSnoc(marks, mark);
    SoaAfter(z, marks, w, mark);
    WithSerialKeeps(w.meta, NextSerial(w.serial));
  }

  lemma {:induction false} SoaAfter(z: ZoneState, marks: seq<Mark>, w: ZoneState, mark: Mark)
    requires w.rule.Advancing? && ReachedBy(z, marks, w) && Unwrapped(z.serial, marks + [mark])
    ensures CommittedAs(w, mark).meta.soa.serial == CommittedAs(w, mark).serial + (if mark.lost then 1 else 0)
  {
    UnwrappedFront(z.serial, marks + [mark]);
    assert (marks + [mark])[..|marks|] == marks;
  }

  /** More commits do not disturb what the secondary holds. */
  lemma {:induction false} LogGrows(z: ZoneState, marks: seq<Mark>, mark: Mark, position: nat, seen: seq<Mark>,
                                    stale: bool, q: ZoneState)
    requires FollowerOk(z, KeptOf(marks), position, seen, stale, q)
    ensures FollowerOk(z, KeptOf(marks + [mark]), position, seen, stale, q)
  {
    KeptSnoc(marks, mark);
    assert (KeptOf(marks) + [mark.change])[..position] == KeptOf(marks)[..position];
  }

  lemma {:induction false} CommitKeeps(z: ZoneState, s: System, lost: bool)
    requires Inv(z, s) && s.staging.Some? && Unwrapped(z.serial, s.marks + [Mark(s.staging.value.change, lost)])
    ensures Inv(z, Next(s, if lost then FailCommit else Commit))
  {
    var mark := Mark(s.staging.value.change, lost);
    var t := Next(s, if lost then FailCommit else Commit);
    PrimaryFlat(z, s);
    CommitSettles(z, s.marks, Settled(s), mark);
    CommitOutcome(s, lost);
    LogGrows(z, s.marks, mark, s.position, s.seen, s.stale, s.secondary);
    MailKept(z, s.marks, mark, s.mail);
  }

  lemma {:induction false} MailKept(z: ZoneState, marks: seq<Mark>, mark: Mark, mail: seq<Parcel>)
    requires MailOk(z, marks, mail)
    ensures MailOk(z, marks + [mark], mail)
  {
  }

  lemma {:induction false} CommitOutcome(s: System, lost: bool)
    requires s.staging.Some? && var staging := s.staging.value;
             && s.primary.records == Apply(staging.before.records, staging.change)
             && staging.before.serial == s.primary.serial && staging.before.version == s.primary.version
    ensures Next(s, if lost then FailCommit else Commit)
            == s.(primary := CommittedAs(Settled(s), Mark(s.staging.value.change, lost)), staging := None,
                  marks := s.marks + [Mark(s.staging.value.change, lost)])
  {
    assert Staged(Settled(s), s.staging.value.change) == s.primary;
  }

  lemma {:induction false} FullTransferKeeps(z: ZoneState, s: System)
    requires Inv(z, s)
    ensures Inv(z, Next(s, FullTransfer)) && !Next(s, FullTransfer).stale
  {
    PrimaryFlat(z, s);
    SnapshotRoundTrip(s.primary, s.secondary);
    var r := FullApplied(s.secondary, SnapshotOf(s.primary)).0;
    CopyFollows(z, KeptOf(s.marks), InFlight(s), s.primary, r);
    FullTransferOutcome(s);
  }

  lemma {:induction false} FullTransferOutcome(s: System)
    ensures var (r, ok) := FullApplied(s.secondary, SnapshotOf(s.primary));
            Next(s, FullTransfer)
            == s.(secondary := r, position := |KeptOf(s.marks)|,
                  seen := AsKept(KeptOf(s.marks)) + InFlight(s), stale := !ok)
    ensures Settled(Next(s, FullTransfer)) == Settled(s)
  {
  }

  lemma {:induction false} CopyFollows(z: ZoneState, log: seq<Change>, flight: seq<Mark>, p: ZoneState, r: ZoneState)
    requires forall i :: 0 <= i < |flight| ==> flight[i].lost
    requires FlatOf(p.records) == Play(FlatOf(z.records), log + AllOf(flight)) && p.serial == z.serial + |log|
    requires FlatOf(r.records) == FlatOf(p.records) && r.serial == p.serial && WellFormed(r.records)
    requires r.meta == p.meta && MetaKept(p.meta, z.meta)
    ensures FollowerOk(z, log, |log|, AsKept(log) + flight, false, r)
  {
    CopySeen(log, flight);
    assert log[..|log|] == log;
  }

  lemma {:induction false} CopySeen(log: seq<Change>, flight: seq<Mark>)
    requires forall i :: 0 <= i < |flight| ==> flight[i].lost
    ensures AllOf(AsKept(log) + flight) == log + AllOf(flight) && KeptOf(AsKept(log) + flight) == log
  {
    AsKeptKeeps(log);
    KeptConcat(AsKept(log), flight);
    NothingKept(flight);
    assert log + [] == log;
  }

  lemma {:induction false} NothingKept(marks: seq<Mark>)
    requires forall i :: 0 <= i < |marks| ==> marks[i].lost
    ensures KeptOf(marks) == []
  {
    if marks != [] {
      NothingKept(marks[..|marks| - 1]);
    }
  }

  /** What an incremental transfer leaves, also in the middle of a staged change. */
  lemma {:induction false} IncrementReaches(z: ZoneState, s: System)
    requires Inv(z, s) && Unwrapped(z.serial, s.marks)
    ensures UpToDate(Refreshed(s.primary, s.primary, s.primary, s.secondary),
                     Play(FlatOf(s.secondary.records), AllOf(ShippedMarks(s.marks, s.position))),
                     z.serial + |KeptOf(s.marks)|)
    ensures WellFormed(Refreshed(s.primary, s.primary, s.primary, s.secondary).value.records)
    ensures MetaKept(Refreshed(s.primary, s.primary, s.primary, s.secondary).value.meta, s.secondary.meta)
  {
    var w, p := Settled(s), s.primary;
    RefreshedMeta(p, p, p, s.secondary);
    assert DeltaFrom(p, p, p, s.secondary.serial) == DeltaFrom(w, w, w, s.secondary.serial);
    MarkedDelta(z, s.secondary, s.marks, s.position, w);
  }

  /** What the secondary was given grows by what is shipped. */
  lemma {:induction false} SeenGrows(m: Flat, marks: seq<Mark>, position: nat, seen: seq<Mark>, held: Flat)
    requires position <= |KeptOf(marks)| && KeptOf(seen) == KeptOf(marks)[..position] && held == Play(m, AllOf(seen))
    ensures var seen' := seen + ShippedMarks(marks, position);
            && KeptOf(seen') == KeptOf(marks)
            && Play(held, AllOf(ShippedMarks(marks, position))) == Play(m, AllOf(seen'))
  {
    var log, shipped := KeptOf(marks), ShippedMarks(marks, position);
    KeptSince(marks, position);
    KeptConcat(seen, shipped);
    PlayConcat(m, AllOf(seen), AllOf(shipped));
    assert log[..position] + log[position..] == log;
    assert position == |log| ==> log[..position] + [] == log;
  }

  lemma {:induction false} IncrementKeeps(z: ZoneState, s: System)
    requires Inv(z, s) && Unwrapped(z.serial, s.marks)
    ensures Inv(z, Next(s, Increment))
  {
    IncrementReaches(z, s);
    var r := Refreshed(s.primary, s.primary, s.primary, s.secondary).value;
    FollowerMoves(z, s.marks, s.position, s.seen, s.stale, s.secondary, r);
    IncrementOutcome(s, r);
  }

  lemma {:induction false} IncrementOutcome(s: System, r: ZoneState)
    requires Refreshed(s.primary, s.primary, s.primary, s.secondary) == Some(r)
    ensures Next(s, Increment)
            == s.(secondary := r, position := |KeptOf(s.marks)|, seen := s.seen + ShippedMarks(s.marks, s.position))
    ensures Settled(Next(s, Increment)) == Settled(s)
  {
  }

  lemma {:induction false} FollowerMoves(z: ZoneState, marks: seq<Mark>, position: nat, seen: seq<Mark>, stale: bool,
                                         q: ZoneState, r: ZoneState)
    requires FollowerOk(z, KeptOf(marks), position, seen, stale, q) && z.serial + |KeptOf(marks)| <= MAX_SERIAL
    requires UpToDate(Some(r), Play(FlatOf(q.records), AllOf(ShippedMarks(marks, position))),
                      z.serial + |KeptOf(marks)|)
    requires WellFormed(r.records) && MetaKept(r.meta, q.meta)
    ensures FollowerOk(z, KeptOf(marks), |KeptOf(marks)|, seen + ShippedMarks(marks, position), stale, r)
  {
    assert KeptOf(marks)[..|KeptOf(marks)|] == KeptOf(marks);
    if !stale {
      SeenGrows(FlatOf(z.records), marks, position, seen, FlatOf(q.records));
    }
  }

  /** Sending builds a delta from where the secondary stands and changes nothing else. */
  lemma {:induction false} SendKeeps(z: ZoneState, s: System)
    requires Inv(z, s) && Unwrapped(z.serial, s.marks)
    ensures Inv(z, Next(s, Send))
  {
    var w, from := Settled(s), s.secondary.serial;
    ParcelBuilt(z, s.marks, s.position, w, from);
    assert IXFR(s.primary, from) == IXFR(w, from);
    SendOutcome(s, IXFR(w, from).value);
    var p := Parcel(IXFR(w, from).value, s.marks, s.position);
    OneMore(z, s.marks, s.mail, p);
    InvWithMail(z, s, s.mail + [p]);
  }

  lemma {:induction false} InvWithMail(z: ZoneState, s: System, mail: seq<Parcel>)
    requires Inv(z, s) && MailOk(z, s.marks, mail)
    ensures Inv(z, s.(mail := mail))
  {
    assert Settled(s.(mail := mail)) == Settled(s);
  }

  lemma {:induction false} ParcelBuilt(z: ZoneState, marks: seq<Mark>, i: nat, w: ZoneState, from: uint32)
    requires Primary(z) && Unwrapped(z.serial, marks) && AllAccepted(AllOf(marks)) && i <= |KeptOf(marks)|
    requires ReachedBy(z, marks, w) && from == z.serial + i
    ensures IXFR(w, from).Some? && ParcelOk(z, marks, Parcel(IXFR(w, from).value, marks, i))
  {
    MarkedOffer(z, marks, i, w);
  }

  lemma {:induction false} SendOutcome(s: System, delta: Delta)
    requires IXFR(s.primary, s.secondary.serial) == Some(delta)
    ensures Next(s, Send) == s.(mail := s.mail + [Parcel(delta, s.marks, s.position)])
    ensures Settled(Next(s, Send)) == Settled(s)
  {
  }

  lemma {:induction false} OneMore(z: ZoneState, marks: seq<Mark>, mail: seq<Parcel>, p: Parcel)
    requires MailOk(z, marks, mail) && ParcelOk(z, marks, p)
    ensures MailOk(z, marks, mail + [p])
  {
  }

  /** The log of a prefix of the commits is a prefix of the log. */
  lemma {:induction false} KeptPrefix(front: seq<Mark>, marks: seq<Mark>)
    requires front <= marks
    ensures KeptOf(front) <= KeptOf(marks)
  {
    assert marks == front + marks[|front|..];
    KeptConcat(front, marks[|front|..]);
  }

  /** A parcel that fits moves the secondary to the commit it ends with; any other is refused and changes nothing. */
  lemma {:induction false} ParcelApplied(z: ZoneState, marks: seq<Mark>, position: nat, seen: seq<Mark>, stale: bool,
                                         q: ZoneState, p: Parcel)
    requires FollowerOk(z, KeptOf(marks), position, seen, stale, q) && ParcelOk(z, marks, p)
    requires z.serial + |KeptOf(marks)| <= MAX_SERIAL
    ensures var (r, ok) := DeltaApplied(q, p.delta);
            && (ok <==> p.from == position)
            && (!ok ==> r == q)
            && (ok ==> FollowerOk(z, KeptOf(marks), |KeptOf(p.marks)|, seen + ShippedMarks(p.marks, position),
                                  stale, r))
  {
    OutOfStep(q, p.delta);
    OpsRoundTrip(AllOf(ShippedMarks(p.marks, p.from)));
    if p.from == position {
      KeptPrefix(p.marks, marks);
      DeltaPlays(q, p.delta);
      WithSerialKeeps(q.meta, p.delta.range.end);
      ParcelMoves(z, marks, position, seen, stale, q, p, DeltaApplied(q, p.delta).0);
    }
  }

  lemma {:induction false} ParcelMoves(z: ZoneState, marks: seq<Mark>, position: nat, seen: seq<Mark>, stale: bool,
                                       q: ZoneState, p: Parcel, r: ZoneState)
    requires FollowerOk(z, KeptOf(marks), position, seen, stale, q)
    requires KeptOf(p.marks) <= KeptOf(marks) && position <= |KeptOf(p.marks)|
    requires z.serial + |KeptOf(marks)| <= MAX_SERIAL
    requires UpToDate(Some(r), Play(FlatOf(q.records), AllOf(ShippedMarks(p.marks, position))),
                      z.serial + |KeptOf(p.marks)|)
    requires WellFormed(r.records) && MetaKept(r.meta, q.meta)
    ensures FollowerOk(z, KeptOf(marks), |KeptOf(p.marks)|, seen + ShippedMarks(p.marks, position), stale, r)
  {
    assert KeptOf(p.marks)[..position] == KeptOf(marks)[..position];
    FollowerMoves(z, p.marks, position, seen, stale, q, r);
    assert KeptOf(marks)[..|KeptOf(p.marks)|] == KeptOf(p.marks)[..|KeptOf(p.marks)|];
  }

  lemma {:induction false} DeliverKeeps(z: ZoneState, s: System, k: nat)
    requires Inv(z, s) && Unwrapped(z.serial, s.marks)
    ensures Inv(z, Next(s, Deliver(k)))
  {
    if k < |s.mail| {
      ParcelApplied(z, s.marks, s.position, s.seen, s.stale, s.secondary, s.mail[k]);
      DeliverOutcome(s, k);
    }
    assert Settled(Next(s, Deliver(k))) == Settled(s);
  }

  lemma {:induction false} DeliverOutcome(s: System, k: nat)
    requires k < |s.mail|
    ensures var p, t := s.mail[k], Next(s, Deliver(k));
            && t == s.(secondary := DeltaApplied(s.secondary, p.delta).0, position := t.position, seen := t.seen)
            && (DeltaApplied(s.secondary, p.delta).1 ==>
                  t.position == |KeptOf(p.marks)| && t.seen == s.seen + ShippedMarks(p.marks, p.from))
            && (!DeltaApplied(s.secondary, p.delta).1 ==> t.position == s.position && t.seen == s.seen)
  {
  }

  lemma {:induction false} NextKeeps(z: ZoneState, s: System, e: Event)
    requires Inv(z, s) && Unwrapped(z.serial, s.marks) && Unwrapped(z.serial, Next(s, e).marks)
    ensures Inv(z, Next(s, e))
  {
    match e
    case Stage(ch) => StageKeeps(z, s, ch);
    case Commit =>
      if s.staging.Some? {
        CommitKeeps(z, s, false);
      }
    case FailCommit =>
      if s.staging.Some? {
        CommitKeeps(z, s, true);
      }
    case Undo => UndoKeeps(z, s);
    case FullTransfer => FullTransferKeeps(z, s);
    case Increment => IncrementKeeps(z, s);
    case Send => SendKeeps(z, s);
    case Deliver(k) => DeliverKeeps(z, s, k);
  }

  lemma {:induction false} MarksGrow(s: System, e: Event)
    ensures Next(s, e).marks == s.marks || exists mark :: Next(s, e).marks == s.marks + [mark]
  {
  }

  lemma {:induction false} UnwrappedBefore(serial: uint32, s: System, e: Event)
    requires Unwrapped(serial, Next(s, e).marks)
    ensures Unwrapped(serial, s.marks)
  {
    MarksGrow(s, e);
    if Next(s, e).marks != s.marks {
      var mark :| Next(s, e).marks == s.marks + [mark];
      assert (s.marks + [mark])[..|s.marks|] == s.marks;
      UnwrappedFront(serial, s.marks + [mark]);
    }
  }

  /** The invariant over every run in which no serial wraps. */
  lemma {:induction false} RunKeeps(z: ZoneState, s: System, events: seq<Event>)
    requires Origin(z) && Start(z, s) && Unwrapped(z.serial, Run(s, events).marks)
    ensures Inv(z, Run(s, events))
  {
    if events == [] {
      StartOk(z, s);
    } else {
      var front, last := events[..|events| - 1], events[|events| - 1];
      UnwrappedBefore(z.serial, Run(s, front), last);
      RunKeeps(z, s, front);
      NextKeeps(z, Run(s, front), last);
    }
  }

  /**
   However deltas were delayed, repeated, reordered or lost: the serial of a secondary
   that had a full transfer never passes a commit it was not given, and it holds exactly
   what it was given.
   */
  lemma {:induction false} SerialNeverPasses(z: ZoneState, s: System, events: seq<Event>)
    requires Origin(z) && Start(z, s) && Unwrapped(z.serial, Run(s, events).marks) && !Run(s, events).stale
    ensures var t := Run(s, events);
            && z.serial <= t.secondary.serial <= z.serial + |KeptOf(t.marks)|
            && KeptOf(t.seen) == KeptOf(t.marks)[..t.secondary.serial - z.serial]
            && FlatOf(t.secondary.records) == Play(FlatOf(z.records), AllOf(t.seen))
  {
    RunKeeps(z, s, events);
  }

  /** A primary without history, asked from another serial, leaves the secondary as it is. */
  lemma {:induction false} NoHistoryNoIncrement(s: System)
    requires s.primary.history == [] && s.secondary.serial != s.primary.serial
    ensures Next(s, Increment) == s && Next(s, Send) == s
  {
    NoHistoryNoChange(s.primary, s.secondary);
    DeltaOffered(s.primary, s.secondary.serial);
  }

  // Convergence

  /** Bringing the secondary to the end: equal unless what was taken back shows, or the primary's own SOA is ahead. */
  lemma {:induction false} IncrementSyncs(z: ZoneState, s: System)
    requires Inv(z, s) && Unwrapped(z.serial, s.marks) && s.staging.None? && !s.stale
    ensures var t := Next(s, Increment);
            InSync(t.primary, t.secondary) <==> Healed(FlatOf(z.records), t.seen) && !EndsLost(t.marks)
  {
    IncrementReaches(z, s);
    var r := Refreshed(s.primary, s.primary, s.primary, s.secondary).value;
    IncrementOutcome(s, r);
    PrimaryFlat(z, s);
    assert KeptOf(s.marks) + [] == KeptOf(s.marks);
    SeenGrows(FlatOf(z.records), s.marks, s.position, s.seen, FlatOf(s.secondary.records));
    LostChanges(FlatOf(z.records), s.seen + ShippedMarks(s.marks, s.position));
    EqualContent(z, s.primary, r, s.marks);
  }

  lemma {:induction false} EqualContent(z: ZoneState, p: ZoneState, r: ZoneState, marks: seq<Mark>)
    requires WellFormed(p.records) && WellFormed(r.records)
    requires MetaKept(r.meta, z.meta) && MetaKept(p.meta, z.meta)
    requires r.serial == r.meta.soa.serial == p.serial
             && p.meta.soa.serial == p.serial + (if EndsLost(marks) then 1 else 0)
    ensures InSync(p, r) <==> FlatOf(r.records) == FlatOf(p.records) && !EndsLost(marks)
  {
    ListingIsContent(r.records, p.records);
  }

  /**
   Convergence, exactly. After any run without a serial wrap, with commits failing
   anywhere and transfers taken at any moment, once nothing is in flight and the
   secondary ever had a full transfer: one incremental transfer makes it equal to the
   primary in records, listing, serial and SOA exactly when every key that a change
   taken back was the last to write on it ends with that change's own effect at the
   primary, and the last commit did not fail.
   */
  lemma {:induction false} ConvergesExactly(z: ZoneState, s: System, events: seq<Event>)
    requires Origin(z) && Start(z, s) && Unwrapped(z.serial, Run(s, events).marks)
    requires Run(s, events).staging.None? && !Run(s, events).stale
    ensures var t := Next(Run(s, events), Increment);
            InSync(t.primary, t.secondary) <==> Healed(FlatOf(z.records), t.seen) && !EndsLost(t.marks)
  {
    RunKeeps(z, s, events);
    IncrementSyncs(z, Run(s, events));
  }

  /** A copied change that is still in flight, or was committed right after the copy. */
  predicate OnItsWay(log: seq<Change>, position: nat, flight: seq<Mark>, mark: Mark) {
    || (position == |log| && flight == [mark])
    || (position < |log| && log[position] == mark.change)
  }

  /** Nothing else that is not the primary's own shows on the secondary. */
  ghost predicate Tame(log: seq<Change>, position: nat, seen: seq<Mark>, flight: seq<Mark>) {
    forall k :: LosesLast(seen, k) ==> OnItsWay(log, position, flight, LastWriter(seen, k).value)
  }

  /** Nor is there a failed commit that the next delta would ship. */
  ghost predicate Untainted(s: System) {
    Tame(KeptOf(s.marks), s.position, s.seen, InFlight(s)) && NoneLost(MarksSince(s.marks, s.position))
  }

  predicate NoneLost(marks: seq<Mark>) {
    forall i :: 0 <= i < |marks| ==> !marks[i].lost
  }

  /**
   Convergence of runs that take nothing back: from an untainted state, one incremental
   transfer makes the two equal.
   */
  lemma {:induction false} Convergence(z: ZoneState, s: System, events: seq<Event>)
    requires Origin(z) && Start(z, s) && Unwrapped(z.serial, Run(s, events).marks)
    requires var u := Run(s, events); u.staging.None? && !u.stale && Untainted(u)
    ensures InSync(Run(s, events).primary, Next(Run(s, events), Increment).secondary)
  {
    RunKeeps(z, s, events);
    UntaintedSyncs(z, Run(s, events));
  }

  lemma {:induction false} UntaintedSyncs(z: ZoneState, u: System)
    requires Inv(z, u) && Unwrapped(z.serial, u.marks) && u.staging.None? && !u.stale && Untainted(u)
    ensures InSync(u.primary, Next(u, Increment).secondary)
  {
    IncrementSyncs(z, u);
    IncrementReaches(z, u);
    IncrementOutcome(u, Refreshed(u.primary, u.primary, u.primary, u.secondary).value);
    CaughtUp(u.marks, u.position, u.seen, []);
    EndShows(u.marks, u.position);
  }

  /** A failed last commit is newer than any position. */
  lemma {:induction false} EndShows(marks: seq<Mark>, position: nat)
    requires position <= |KeptOf(marks)| && NoneLost(MarksSince(marks, position))
    ensures !EndsLost(marks) && MarksSince(marks, |KeptOf(marks)|) == []
  {
    if EndsLost(marks) {
      LastIsSince(marks, position);
    } else {
      NothingSince(marks);
    }
  }

  lemma {:induction false} LastIsSince(marks: seq<Mark>, position: nat)
    requires EndsLost(marks) && position <= |KeptOf(marks)|
    ensures !NoneLost(MarksSince(marks, position))
  {
    var since := MarksSince(marks, position);
    assert since[|since| - 1] == marks[|marks| - 1];
  }

  /** A delta of kept changes overwrites the copy of the one committed right after it was taken. */
  lemma {:induction false} CaughtUpTo(marks: seq<Mark>, front: seq<Mark>, position: nat, seen: seq<Mark>,
                                      flight: seq<Mark>)
    requires front <= marks && position <= |KeptOf(front)|
    requires Tame(KeptOf(marks), position, seen, flight) && NoneLost(MarksSince(marks, position))
    ensures Tame(KeptOf(marks), |KeptOf(front)|, seen + ShippedMarks(front, position), flight)
    ensures NoneLost(MarksSince(marks, |KeptOf(front)|))
  {
    var log, shipped := KeptOf(marks), ShippedMarks(front, position);
    KeptPrefix(front, marks);
    KeptSince(front, position);
    SincePrefix(front, marks, position);
    SinceLater(marks, position, |KeptOf(front)|);
    ShippedNoneLost(front, marks, position);
    forall k | LosesLast(seen + shipped, k)
      ensures OnItsWay(log, |KeptOf(front)|, flight, LastWriter(seen + shipped, k).value)
    {
      LastWriterConcat(seen, shipped, k);
      NoneLostLast(shipped, k);
      if position < |KeptOf(front)| {
        LastWriterKey(seen, k);
        WrittenIn(shipped, k);
      }
    }
  }

  lemma {:induction false} ShippedNoneLost(front: seq<Mark>, marks: seq<Mark>, position: nat)
    requires MarksSince(front, position) <= MarksSince(marks, position) && NoneLost(MarksSince(marks, position))
    ensures NoneLost(ShippedMarks(front, position))
  {
    var shipped := ShippedMarks(front, position);
    forall i | 0 <= i < |shipped| ensures !shipped[i].lost {
      assert shipped[i] == MarksSince(marks, position)[i];
    }
  }

  /** Later commits add entries behind those selected so far. */
  lemma {:induction false} SincePrefix(front: seq<Mark>, marks: seq<Mark>, i: nat)
    requires front <= marks
    ensures MarksSince(front, i) <= MarksSince(marks, i)
  {
    if front != marks {
      var most, last := marks[..|marks| - 1], marks[|marks| - 1];
      assert front <= most;
      SincePrefix(front, most, i);
      assert MarksSince(marks, i) == MarksSince(most, i) + if |KeptOf(most)| >= i then [last] else [];
    }
  }

  /** Entries newer than a later commit are newer than an earlier one. */
  lemma {:induction false} SinceLater(marks: seq<Mark>, i: nat, j: nat)
    requires i <= j && NoneLost(MarksSince(marks, i))
    ensures NoneLost(MarksSince(marks, j))
  {
    if marks != [] {
      var front, last := marks[..|marks| - 1], marks[|marks| - 1];
      var before := MarksSince(front, i);
      forall k | 0 <= k < |before| ensures !before[k].lost {
        assert MarksSince(marks, i)[k] == before[k];
      }
      if |KeptOf(front)| >= j {
        assert MarksSince(marks, i)[|before|] == last;
      }
      SinceLater(front, i, j);
    }
  }

  lemma {:induction false} CaughtUp(marks: seq<Mark>, position: nat, seen: seq<Mark>, flight: seq<Mark>)
    requires position <= |KeptOf(marks)|
    requires Tame(KeptOf(marks), position, seen, flight) && NoneLost(MarksSince(marks, position))
    ensures Tame(KeptOf(marks), |KeptOf(marks)|, seen + ShippedMarks(marks, position), flight)
  {
    CaughtUpTo(marks, marks, position, seen, flight);
  }

  lemma {:induction false} LastWriterKey(marks: seq<Mark>, k: Key)
    ensures LastWriter(marks, k).Some? ==> KeyOf(LastWriter(marks, k).value.change) == k
  {
    if marks != [] {
      LastWriterKey(marks[..|marks| - 1], k);
    }
  }

  lemma {:induction false} NoneLostLast(marks: seq<Mark>, k: Key)
    requires NoneLost(marks)
    ensures !LosesLast(marks, k)
  {
    if marks != [] {
      NoneLostLast(marks[..|marks| - 1], k);
    }
  }

  lemma {:induction false} WrittenIn(marks: seq<Mark>, k: Key)
    requires KeptOf(marks) != [] && KeyOf(KeptOf(marks)[0]) == k
    ensures LastWriter(marks, k).Some?
  {
    var front, last := marks[..|marks| - 1], marks[|marks| - 1];
    if KeyOf(last.change) != k {
      WrittenIn(front, k);
    }
  }

  /**
   A full transfer wipes the slate, unless the last commit failed: its entry goes out
   with the next delta all the same.
   */
  lemma {:induction false} FullTransferCleans(s: System)
    ensures Untainted(Next(s, FullTransfer)) <==> !EndsLost(s.marks)
  {
    var t := Next(s, FullTransfer);
    CopyTame(KeptOf(s.marks), InFlight(s));
    assert InFlight(t) == InFlight(s) && t.marks == s.marks;
    if EndsLost(s.marks) {
      LastIsSince(s.marks, |KeptOf(s.marks)|);
    } else {
      NothingSince(s.marks);
    }
  }

  lemma {:induction false} NothingSince(marks: seq<Mark>)
    requires !EndsLost(marks)
    ensures MarksSince(marks, |KeptOf(marks)|) == []
  {
    if marks != [] {
      NoneSince(marks[..|marks| - 1], |KeptOf(marks)|);
    }
  }

  lemma {:induction false} CopyTame(log: seq<Change>, flight: seq<Mark>)
    requires |flight| <= 1
    ensures Tame(log, |log|, AsKept(log) + flight, flight)
  {
    AsKeptKeeps(log);
    forall k | LosesLast(AsKept(log) + flight, k) ensures flight == [LastWriter(AsKept(log) + flight, k).value] {
      LastWriterConcat(AsKept(log), flight, k);
      assert !LosesLast(AsKept(log), k);
      assert flight != [] ==> flight[..0] == [] && flight == [flight[0]] && LastWriter(flight[..0], k).None?;
    }
  }

  /** The event is no failing commit, and no rollback of a change that the secondary copied. */
  ghost predicate TakesNothingBack(s: System, e: Event) {
    && (e.FailCommit? ==> s.staging.None?)
    && (e.Undo? ==> forall k :: !(LosesLast(s.seen, k) && InFlight(s) == [LastWriter(s.seen, k).value]))
  }

  /** An untainted state stays so under every event but a commit that fails and the rollback of a copied change. */
  lemma {:induction false} NextKeepsUntainted(z: ZoneState, s: System, e: Event)
    requires Inv(z, s) && Unwrapped(z.serial, s.marks) && Untainted(s)
    requires TakesNothingBack(s, e)
    ensures Untainted(Next(s, e))
  {
    match e
    case Stage(ch) => StageKeepsUntainted(s, ch);
    case Commit => CommitKeepsUntainted(s);
    case FailCommit =>
    case Undo => UndoKeepsUntainted(s);
    case FullTransfer =>
      EndShows(s.marks, s.position);
      FullTransferCleans(s);
    case Increment => IncrementKeepsUntainted(z, s);
    case Send => SendKeepsUntainted(s);
    case Deliver(k) => DeliverKeepsUntainted(z, s, k);
  }

  lemma {:induction false} SendKeepsUntainted(s: System)
    requires Untainted(s)
    ensures Untainted(Next(s, Send))
  {
    var t := Next(s, Send);
    assert t.marks == s.marks && t.position == s.position && t.seen == s.seen && InFlight(t) == InFlight(s);
  }

  lemma {:induction false} DeliverKeepsUntainted(z: ZoneState, s: System, k: nat)
    requires Inv(z, s) && Unwrapped(z.serial, s.marks) && Untainted(s)
    ensures Untainted(Next(s, Deliver(k)))
  {
    if k < |s.mail| {
      DeliveredInStep(z, s, k);
      DeliveryKeeps(s, k);
    } else {
      NoSuchParcel(s, k);
    }
  }

  lemma {:induction false} NoSuchParcel(s: System, k: nat)
    requires k >= |s.mail|
    ensures Next(s, Deliver(k)) == s
  {
  }

  lemma {:induction false} DeliveryKeeps(s: System, k: nat)
    requires Untainted(s) && k < |s.mail| && s.mail[k].marks <= s.marks && s.mail[k].from <= |KeptOf(s.mail[k].marks)|
    requires DeltaApplied(s.secondary, s.mail[k].delta).1 ==> s.mail[k].from == s.position
    ensures Untainted(Next(s, Deliver(k)))
  {
    DeliveredTo(s, k);
    DeliveredIsUntainted(s, s.mail[k], Next(s, Deliver(k)));
  }

  lemma {:induction false} DeliveredInStep(z: ZoneState, s: System, k: nat)
    requires Inv(z, s) && Unwrapped(z.serial, s.marks) && k < |s.mail|
    ensures var p := s.mail[k];
            && p.marks <= s.marks && p.from <= |KeptOf(p.marks)|
            && (DeltaApplied(s.secondary, p.delta).1 ==> p.from == s.position)
  {
    ParcelApplied(z, s.marks, s.position, s.seen, s.stale, s.secondary, s.mail[k]);
  }

  lemma {:induction false} DeliveredTo(s: System, k: nat)
    requires k < |s.mail| && (DeltaApplied(s.secondary, s.mail[k].delta).1 ==> s.mail[k].from == s.position)
    ensures var p, t := s.mail[k], Next(s, Deliver(k));
            && t.marks == s.marks && t.staging == s.staging
            && (|| (t.position == s.position && t.seen == s.seen)
                || (&& p.from == s.position && t.position == |KeptOf(p.marks)|
                    && t.seen == s.seen + ShippedMarks(p.marks, p.from)))
  {
    DeliverOutcome(s, k);
  }

  lemma {:induction false} DeliveredIsUntainted(s: System, p: Parcel, t: System)
    requires Untainted(s) && p.marks <= s.marks && p.from <= |KeptOf(p.marks)|
    requires t.marks == s.marks && t.staging == s.staging
    requires || (t.position == s.position && t.seen == s.seen)
             || (&& p.from == s.position && t.position == |KeptOf(p.marks)|
                 && t.seen == s.seen + ShippedMarks(p.marks, p.from))
    ensures Untainted(t)
  {
    assert InFlight(t) == InFlight(s);
    if t.position != s.position || t.seen != s.seen {
      CaughtUpTo(s.marks, p.marks, s.position, s.seen, InFlight(s));
    }
  }

  lemma {:induction false} StageKeepsUntainted(s: System, ch: Change)
    requires Untainted(s)
    ensures Untainted(Next(s, Stage(ch)))
  {
    var t := Next(s, Stage(ch));
    if t != s {
      assert t.marks == s.marks && t.position == s.position && t.seen == s.seen && InFlight(s) == [];
      FlightAppears(KeptOf(s.marks), s.position, s.seen, InFlight(t));
    }
  }

  lemma {:induction false} FlightAppears(log: seq<Change>, position: nat, seen: seq<Mark>, flight: seq<Mark>)
    requires Tame(log, position, seen, [])
    ensures Tame(log, position, seen, flight)
  {
    forall k | LosesLast(seen, k) ensures OnItsWay(log, position, flight, LastWriter(seen, k).value) {
      assert OnItsWay(log, position, [], LastWriter(seen, k).value);
    }
  }

  lemma {:induction false} CommitKeepsUntainted(s: System)
    requires Untainted(s) && s.position <= |KeptOf(s.marks)|
    ensures Untainted(Next(s, Commit))
  {
    if s.staging.Some? {
      var ch, t := s.staging.value.change, Next(s, Commit);
      assert t.marks == s.marks + [Mark(ch, false)] && InFlight(t) == [];
      assert t.position == s.position && t.seen == s.seen;
      CommitKeepsTame(s.marks, s.position, s.seen, ch);
    }
  }

  lemma {:induction false} UndoKeepsUntainted(s: System)
    requires Untainted(s) && TakesNothingBack(s, Undo)
    ensures Untainted(Next(s, Undo))
  {
    var t := Next(s, Undo);
    assert t.marks == s.marks && t.position == s.position && t.seen == s.seen && InFlight(t) == [];
    FlightGoes(KeptOf(s.marks), s.position, s.seen, InFlight(s));
  }

  lemma {:induction false} FlightGoes(log: seq<Change>, position: nat, seen: seq<Mark>, flight: seq<Mark>)
    requires Tame(log, position, seen, flight)
    requires forall k :: !(LosesLast(seen, k) && flight == [LastWriter(seen, k).value])
    ensures Tame(log, position, seen, [])
  {
    forall k | LosesLast(seen, k) ensures OnItsWay(log, position, [], LastWriter(seen, k).value) {
      assert OnItsWay(log, position, flight, LastWriter(seen, k).value);
    }
  }

  lemma {:induction false} IncrementKeepsUntainted(z: ZoneState, s: System)
    requires Inv(z, s) && Unwrapped(z.serial, s.marks) && Untainted(s)
    ensures Untainted(Next(s, Increment))
  {
    IncrementReaches(z, s);
    var r := Refreshed(s.primary, s.primary, s.primary, s.secondary).value;
    IncrementOutcome(s, r);
    MovedIsUntainted(s, r);
  }

  lemma {:induction false} MovedIsUntainted(s: System, r: ZoneState)
    requires Untainted(s) && s.position <= |KeptOf(s.marks)|
    ensures Untainted(s.(secondary := r, position := |KeptOf(s.marks)|,
                         seen := s.seen + ShippedMarks(s.marks, s.position)))
  {
    CaughtUp(s.marks, s.position, s.seen, InFlight(s));
    EndShows(s.marks, s.position);
  }

  lemma {:induction false} CommitKeepsTame(marks: seq<Mark>, position: nat, seen: seq<Mark>, ch: Change)
    requires position <= |KeptOf(marks)| && Tame(KeptOf(marks), position, seen, [Mark(ch, true)])
    requires NoneLost(MarksSince(marks, position))
    ensures var after := marks + [Mark(ch, false)];
            Tame(KeptOf(after), position, seen, []) && NoneLost(MarksSince(after, position))
  {
    KeptSnoc(marks, Mark(ch, false));
    assert (marks + [Mark(ch, false)])[..|marks|] == marks;
  }

  /** No event of the run takes anything back. */
  ghost predicate Gentle(s: System, events: seq<Event>) {
    forall i {:trigger events[i]} :: 0 <= i < |events| ==> TakesNothingBack(Run(s, events[..i]), events[i])
  }

  lemma {:induction false} GentleFront(s: System, events: seq<Event>)
    requires Gentle(s, events) && events != []
    ensures Gentle(s, events[..|events| - 1])
    ensures TakesNothingBack(Run(s, events[..|events| - 1]), events[|events| - 1])
  {
    var front := events[..|events| - 1];
    forall i | 0 <= i < |front| ensures TakesNothingBack(Run(s, front[..i]), front[i]) {
      assert front[..i] == events[..i] && front[i] == events[i];
    }
  }

  lemma {:induction false} UnwrappedStart(serial: uint32, s: System, events: seq<Event>)
    requires Unwrapped(serial, Run(s, events).marks)
    ensures Unwrapped(serial, s.marks)
  {
    if events != [] {
      var front := events[..|events| - 1];
      UnwrappedBefore(serial, Run(s, front), events[|events| - 1]);
      UnwrappedStart(serial, s, front);
    }
  }

  lemma {:induction false} StaleStays(s: System, e: Event)
    requires !s.stale && !e.FullTransfer?
    ensures !Next(s, e).stale
  {
  }

  /** A run that takes nothing back keeps a secondary untainted that once had a full transfer. */
  lemma {:induction false} GentleRunKeeps(z: ZoneState, s: System, events: seq<Event>)
    requires Inv(z, s) && Untainted(s) && !s.stale
    requires Gentle(s, events) && Unwrapped(z.serial, Run(s, events).marks)
    ensures Inv(z, Run(s, events)) && Untainted(Run(s, events)) && !Run(s, events).stale
  {
    if events != [] {
      var front, last := events[..|events| - 1], events[|events| - 1];
      var t := Run(s, front);
      GentleFront(s, events);
      UnwrappedBefore(z.serial, t, last);
      GentleRunKeeps(z, s, front);
      NextKeeps(z, t, last);
      NextKeepsUntainted(z, t, last);
      if last.FullTransfer? {
        FullTransferKeeps(z, t);
      } else {
        StaleStays(t, last);
      }
    }
  }

  /**
   A full transfer at any moment, also between staging and commit, repairs any secondary
   unless the last commit before it failed: after any further run that takes nothing
   back and ends with nothing staged, one incremental transfer makes the two equal.
   */
  lemma {:induction false} DirtyTransferConverges(z: ZoneState, s: System, events: seq<Event>, more: seq<Event>)
    requires Origin(z) && Start(z, s) && !EndsLost(Run(s, events).marks)
    requires var v := Next(Run(s, events), FullTransfer);
             Gentle(v, more) && Unwrapped(z.serial, Run(v, more).marks) && Run(v, more).staging.None?
    ensures var u := Run(Next(Run(s, events), FullTransfer), more);
            InSync(u.primary, Next(u, Increment).secondary)
  {
    var t := Run(s, events);
    var v := Next(t, FullTransfer);
    UnwrappedStart(z.serial, v, more);
    RunKeeps(z, s, events);
    FullTransferKeeps(z, t);
    FullTransferCleans(t);
    GentleRunKeeps(z, v, more);
    UntaintedSyncs(z, Run(v, more));
  }

  /** In particular, a transfer taken while a change is staged is as good as one taken after its commit. */
  lemma {:induction false} StagedTransferConverges(z: ZoneState, s: System, events: seq<Event>)
    requires Origin(z) && Start(z, s) && !EndsLost(Run(s, events).marks)
    requires Unwrapped(z.serial, Next(Next(Run(s, events), FullTransfer), Commit).marks)
    ensures var u := Next(Next(Run(s, events), FullTransfer), Commit);
            InSync(u.primary, Next(u, Increment).secondary)
  {
    var v := Next(Run(s, events), FullTransfer);
    assert [Commit][..0] == [];
    assert Run(v, [Commit]) == Next(v, Commit);
    DirtyTransferConverges(z, s, events, [Commit]);
  }

  // The zone on its own

  datatype ZoneEvent = Updated(change: Change) | Replaced(snapshot: ZoneSnapshot) | Extended(delta: Delta)

  ghost predicate Ordered(history: seq<HistoryEntry>) {
    forall i, j :: 0 <= i < j < |history| ==> history[i].serial < history[j].serial
  }

  /** SOA and serial agree, and history climbs strictly to the current serial. */
  ghost predicate ZoneOk(z: ZoneState) {
    && z.meta.soa.serial == z.serial
    && Ordered(z.history)
    && (z.history != [] ==> z.history[|z.history| - 1].serial == z.serial)
  }

  /** What each step asks for: no wrap, a consistent snapshot, a delta that moves forward. */
  ghost predicate Forward(z: ZoneState, e: ZoneEvent) {
    match e
    case Updated(ch) => z.serial < MAX_SERIAL && Accepted(ch)
    case Replaced(snapshot) => snapshot.meta.soa.serial == snapshot.serial
    case Extended(delta) => delta.range.end > delta.range.start
  }

  function ZoneNext(z: ZoneState, e: ZoneEvent): (ZoneState, bool) {
    match e
    case Updated(ch) => if Accepted(ch) then (Update(z, ch), true) else (Staged(z, ch), false)
    case Replaced(snapshot) => FullApplied(z, snapshot)
    case Extended(delta) => DeltaApplied(z, delta)
  }

  ghost predicate StepKept(z: ZoneState, w: ZoneState, ok: bool) {
    ZoneOk(w) && w.rule == z.rule && w.version == if ok then NewVersion(z.version) else z.version
  }

  lemma {:induction false} ZoneStepOk(z: ZoneState, e: ZoneEvent)
    requires z.rule.Advancing? && ZoneOk(z) && Forward(z, e)
    ensures StepKept(z, ZoneNext(z, e).0, ZoneNext(z, e).1)
  {
  }

  /**
   A delta that does not move the serial forward leaves the history ordered exactly when
   it is refused or nothing was there.
   */
  lemma {:induction false} StandingDelta(z: ZoneState, delta: Delta)
    requires ZoneOk(z) && delta.range.end <= delta.range.start
    ensures var (w, ok) := DeltaApplied(z, delta);
            ZoneOk(w) <==> !ok || z.history == []
  {
    var (w, ok) := DeltaApplied(z, delta);
    if ok && z.history != [] {
      var n := |z.history|;
      assert w.history[n - 1].serial >= w.history[n].serial;
    }
  }

  function ZoneRun(z: ZoneState, events: seq<ZoneEvent>): (ZoneState, nat)
    decreases |events|
  {
    if events == [] then (z, 0)
    else
      var (w, ok) := ZoneNext(z, events[0]);
      var (last, n) := ZoneRun(w, events[1..]);
      (last, if ok then n + 1 else n)
  }

  ghost predicate AllForward(z: ZoneState, events: seq<ZoneEvent>)
    decreases |events|
  {
    events == [] || (Forward(z, events[0]) && AllForward(ZoneNext(z, events[0]).0, events[1..]))
  }

  lemma {:induction false} VersionCounts(v: uint64, n: nat)
    ensures (NewVersion(v) + n) % 0x1_0000_0000_0000_0000 == (v + (n + 1)) % 0x1_0000_0000_0000_0000
  {
  }

  /** Over any run of forward steps the invariant holds and the version counts the steps that succeeded. */
  lemma {:induction false} ZoneRunOk(z: ZoneState, events: seq<ZoneEvent>)
    requires z.rule.Advancing? && ZoneOk(z) && AllForward(z, events)
    ensures ZoneOk(ZoneRun(z, events).0)
    ensures ZoneRun(z, events).0.version == (z.version + ZoneRun(z, events).1) % 0x1_0000_0000_0000_0000
    decreases |events|
  {
    if events != [] {
      var step := ZoneNext(z, events[0]);
      ZoneStepOk(z, events[0]);
      ZoneRunOk(step.0, events[1..]);
      var rest := ZoneRun(step.0, events[1..]);
      assert ZoneRun(z, events) == (rest.0, if step.1 then rest.1 + 1 else rest.1);
      if step.1 {
        VersionCounts(z.version, rest.1);
      }
    }
  }
}
