/**
  The log of a run of the upgrade: what has happened to flash and to the "doing" flag, in order, and what
  may therefore be found after a reset at any point of the run.
 */
module RunLog {
  import opened Entries

  datatype Event = Doing(on: bool) | Invalidated | Flash | Finished(entry: nat) | Failed(entry: nat) | Version(v: nat)

  /** The flag after these events. */
  ghost function DoingAfter(log: seq<Event>, doing: bool): bool {
    if log == [] then doing
    else if log[|log| - 1].Doing? then log[|log| - 1].on
    else DoingAfter(log[..|log| - 1], doing)
  }

  ghost predicate AllFinished(log: seq<Event>, entries: seq<Entry>) {
    forall i :: 0 <= i < |entries| && entries[i].enabled ==> Finished(i) in log
  }

  ghost predicate AnyFailed(log: seq<Event>) {
    exists k :: 0 <= k < |log| && log[k].Failed?
  }

  /** Each of the first `i` entries of a kind that is switched on has an outcome. */
  ghost predicate OutcomesBefore(log: seq<Event>, entries: seq<Entry>, i: nat, backups: bool) {
    forall k :: 0 <= k < |entries| && k < i && entries[k].enabled && entries[k].Remap? == backups ==>
      Finished(k) in log || Failed(k) in log
  }

  /** Only entries that are switched on are logged as failed. */
  ghost predicate FailuresNamed(log: seq<Event>, entries: seq<Entry>) {
    forall k :: 0 <= k < |log| && log[k].Failed? ==> log[k].entry < |entries| && entries[log[k].entry].enabled
  }

  ghost predicate VersionStored(log: seq<Event>) {
    exists k :: 0 <= k < |log| && log[k].Version?
  }

  /** What may be found after a reset at this point. */
  ghost predicate SafePoint(log: seq<Event>, doing: bool, entries: seq<Entry>) {
    && (!DoingAfter(log, doing) ==> Flash !in log || AllFinished(log, entries))
    && (VersionStored(log) ==> !DoingAfter(log, doing) && AllFinished(log, entries))
  }

  ghost predicate Safe(log: seq<Event>, doing: bool, entries: seq<Entry>) {
    forall k :: 0 <= k <= |log| ==> SafePoint(log[..k], doing, entries)
  }

  lemma SafeNext(log: seq<Event>, ev: Event, doing: bool, entries: seq<Entry>)
    requires Safe(log, doing, entries) && SafePoint(log + [ev], doing, entries)
    ensures Safe(log + [ev], doing, entries)
  {
    var l := log + [ev];
    forall k | 0 <= k <= |l| ensures SafePoint(l[..k], doing, entries) {
      if k <= |log| {
        assert l[..k] == log[..k];
      } else {
        assert l[..k] == l;
      }
    }
  }

  /** While the flag is set and no version is stored, flash may change and entries may finish. */
  ghost predicate Underway(log: seq<Event>, doing: bool, entries: seq<Entry>) {
    Safe(log, doing, entries) && DoingAfter(log, doing) && !VersionStored(log)
  }

  lemma UnderwayNext(log: seq<Event>, ev: Event, doing: bool, entries: seq<Entry>)
    requires Underway(log, doing, entries) && !ev.Doing? && !ev.Version?
    ensures Underway(log + [ev], doing, entries)
  {
    var l := log + [ev];
    assert l[..|l| - 1] == log;
    SafeNext(log, ev, doing, entries);
  }

  /** Setting the flag starts a safe run. */
  lemma Starts(doing: bool, entries: seq<Entry>)
    ensures Underway([Doing(true)], doing, entries) && Safe([], doing, entries)
  {
  }

  /** Clearing the flag and then storing the version is safe once every entry has finished. */
  lemma Ends(log: seq<Event>, v: nat, doing: bool, entries: seq<Entry>)
    requires Underway(log, doing, entries) && AllFinished(log, entries)
    ensures Safe(log + [Doing(false)], doing, entries) && !DoingAfter(log + [Doing(false)], doing)
    ensures Safe(log + [Doing(false)] + [Version(v)], doing, entries)
    ensures !DoingAfter(log + [Doing(false)] + [Version(v)], doing)
  {
    var l1 := log + [Doing(false)];
    var l2 := l1 + [Version(v)];
    assert l1[..|l1| - 1] == log && l2[..|l2| - 1] == l1;
    assert forall i :: Finished(i) in log ==> Finished(i) in l1;
    assert forall i :: Finished(i) in l1 ==> Finished(i) in l2;
    SafeNext(log, Doing(false), doing, entries);
    SafeNext(l1, Version(v), doing, entries);
  }

  /** One more outcome. */
  lemma OutcomeNext(log0: seq<Event>, log: seq<Event>, ev: Event, entries: seq<Entry>, i: nat, backups: bool)
    requires OutcomesBefore(log0, entries, i, backups) && log0 <= log && (ev == Finished(i) || ev == Failed(i))
    ensures OutcomesBefore(log + [ev], entries, i + 1, backups)
  {
    assert forall e :: e in log0 ==> e in log + [ev];
  }

  /** An entry of the other kind, or one that is switched off. */
  lemma OutcomeSkip(log: seq<Event>, entries: seq<Entry>, i: nat, backups: bool)
    requires OutcomesBefore(log, entries, i, backups) && i < |entries|
    requires entries[i].Remap? != backups || !entries[i].enabled
    ensures OutcomesBefore(log, entries, i + 1, backups)
  {
  }

  lemma NoOutcomeYet(log: seq<Event>, entries: seq<Entry>, backups: bool)
    ensures OutcomesBefore(log, entries, 0, backups)
  {
  }

  lemma OutcomesStay(log: seq<Event>, log': seq<Event>, entries: seq<Entry>, i: nat, backups: bool)
    requires OutcomesBefore(log, entries, i, backups) && log <= log'
    ensures OutcomesBefore(log', entries, i, backups)
  {
    assert forall e :: e in log ==> e in log';
  }

  lemma SameFailures(a: seq<Event>, b: seq<Event>, entries: seq<Entry>)
    requires a <= b && forall k :: |a| <= k < |b| ==> !b[k].Failed?
    ensures AnyFailed(a) <==> AnyFailed(b)
    ensures FailuresNamed(a, entries) ==> FailuresNamed(b, entries)
  {
  }

  lemma NamedNext(log: seq<Event>, ev: Event, entries: seq<Entry>)
    requires FailuresNamed(log, entries) && (ev.Failed? ==> ev.entry < |entries| && entries[ev.entry].enabled)
    ensures FailuresNamed(log + [ev], entries)
  {
  }

  lemma NotStoredNext(log: seq<Event>, ev: Event)
    requires !VersionStored(log) && !ev.Version?
    ensures !VersionStored(log + [ev])
  {
  }

  lemma StillDoing(log: seq<Event>, doing: bool, entries: seq<Entry>)
    requires Underway(log, doing, entries)
    ensures Safe(log, doing, entries) && DoingAfter(log, doing)
  {
  }

  /** `failed` says whether a failure has been logged since `log0`. */
  ghost predicate Counted(log0: seq<Event>, log: seq<Event>, failed: bool) {
    log0 <= log && failed == AnyFailed(log[|log0|..])
  }

  lemma NoneFailed(log: seq<Event>)
    ensures Counted(log, log, false)
  {
  }

  lemma CountedNext(log0: seq<Event>, log: seq<Event>, failed: bool, ev: Event)
    requires Counted(log0, log, failed)
    ensures Counted(log0, log + [ev], failed || ev.Failed?)
  {
    var a, b := log[|log0|..], (log + [ev])[|log0|..];
    assert b == a + [ev];
    if AnyFailed(a) {
      var k :| 0 <= k < |a| && a[k].Failed?;
      assert b[k].Failed?;
    }
    assert b[|a|] == ev;
  }

  /** Changing flash is no failure. */
  lemma CountedStep(log0: seq<Event>, log1: seq<Event>, log: seq<Event>, failed: bool)
    requires Counted(log0, log1, failed) && (log == log1 || log == log1 + [Flash])
    ensures Counted(log0, log, failed)
  {
    if log == log1 + [Flash] {
      CountedNext(log0, log1, failed, Flash);
    }
  }

  lemma CountedTrans(log0: seq<Event>, log1: seq<Event>, log2: seq<Event>, a: bool, b: bool)
    requires Counted(log0, log1, a) && Counted(log1, log2, b)
    ensures Counted(log0, log2, a || b)
  {
  }
}
