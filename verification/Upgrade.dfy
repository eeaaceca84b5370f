/**
  The run of an upgrade: `hcfota_internal` of components/hcfota/source/hcfota.c with the loops over the
  entries of the payload header.
 */
module Upgrade {
  import opened Boards
  import opened Cells
  import opened Entries
  import opened Errors
  import opened IoBuffer
  import opened NorFlash
  import opened Options
  import opened Persistent
  import opened RunLog
  import Nand
  import NorWriter

  datatype Header = Header(version: nat, compressed: bool, ignoreVersionUpdate: bool, eraseNor: bool, eraseNand: bool)

  // ---- what a run of entries keeps

  /** All entries can be run: the check has passed, or they are switched off. */
  ghost predicate AllChecked(entries: seq<Entry>, m: Media, image: seq<Cell>) {
    forall k :: 0 <= k < |entries| && entries[k].enabled ==> Checked(entries[k], m, image)
  }

  ghost predicate AllAdmissible(entries: seq<Entry>, m: Media, image: seq<Cell>) {
    forall k :: 0 <= k < |entries| && entries[k].enabled ==> Admissible(entries[k], m, image)
  }

  lemma CheckedKept(entries: seq<Entry>, m0: Media, m: Media, image: seq<Cell>)
    requires SameSize(m0, m)
    ensures AllChecked(entries, m0, image) ==> AllChecked(entries, m, image)
    ensures AllAdmissible(entries, m0, image) ==> AllAdmissible(entries, m, image)
  {
  }

  ghost predicate FinishedBefore(log: seq<Event>, entries: seq<Entry>, i: nat, backups: bool) {
    forall k :: 0 <= k < |entries| && k < i && entries[k].enabled && entries[k].Remap? == backups ==> Finished(k) in log
  }

  /** Some entry that is switched on reaches the NOR cell. */
  ghost predicate CellReached(entries: seq<Entry>, i: int, m: Media) {
    exists k :: 0 <= k < |entries| && entries[k].enabled && Reaches(Target(entries[k]), i, m)
  }

  ghost predicate BlockReached(entries: seq<Entry>, b: int, es: nat)
    requires 0 < es
  {
    exists k :: 0 <= k < |entries| && entries[k].enabled && HasBlock(Target(entries[k]), b, es)
  }

  /** Nothing has changed out of the reach of all entries. */
  ghost predicate ConfinedNor(entries: seq<Entry>, m0: Media, m: Media) {
    SameSize(m0, m) && forall i :: 0 <= i < |m.nor| && !CellReached(entries, i, m0) ==> m.nor[i] == m0.nor[i]
  }

  ghost predicate ConfinedNand(entries: seq<Entry>, m0: Media, m: Media) {
    SameSize(m0, m) && forall b :: 0 <= b < |m.blocks| && !BlockReached(entries, b, m.nandErase) ==> SameBlock(m0, m, b)
  }

  ghost predicate Confined(entries: seq<Entry>, m0: Media, m: Media) {
    ConfinedNor(entries, m0, m) && ConfinedNand(entries, m0, m)
  }

  lemma SameReaches(r: Range, i: int, m0: Media, m: Media)
    requires SameSize(m0, m)
    ensures Reaches(r, i, m) == Reaches(r, i, m0)
  {
  }

  lemma ConfinedNext(entries: seq<Entry>, k: nat, m0: Media, m1: Media, m: Media)
    requires k < |entries| && Confined(entries, m0, m1) && OnlyReached(Target(entries[k]), m1, m)
    requires entries[k].enabled || m == m1
    ensures Confined(entries, m0, m)
  {
    hide Reaches, HasBlock;
    if entries[k].enabled {
      forall i | 0 <= i < |m.nor| && !CellReached(entries, i, m0) ensures m.nor[i] == m0.nor[i] {
        SameReaches(Target(entries[k]), i, m0, m1);
      }
    }
  }

  /** What a step of the run keeps, whatever it does to the flash. */
  ghost predicate Stepped(log0: seq<Event>, log: seq<Event>, m0: Media, m: Media, doing: bool, entries: seq<Entry>) {
    && log0 <= log
    && (Underway(log0, doing, entries) ==> Underway(log, doing, entries))
    && (FailuresNamed(log0, entries) ==> FailuresNamed(log, entries))
    && (VersionStored(log) ==> VersionStored(log0))
    && SameSize(m0, m) && (Flash !in log ==> m == m0)
  }

  lemma SteppedNext(log0: seq<Event>, log1: seq<Event>, log: seq<Event>, m0: Media, m1: Media, m: Media, doing: bool,
                    entries: seq<Entry>)
    requires Stepped(log0, log1, m0, m1, doing, entries) && SameSize(m1, m)
    requires (log == log1 && m == m1) || log == log1 + [Flash]
    ensures Stepped(log0, log, m0, m, doing, entries)
  {
    hide Underway, FailuresNamed, VersionStored;
    if log == log1 + [Flash] && !VersionStored(log1) {
      NotStoredNext(log1, Flash);
    }
    if log == log1 + [Flash] && Underway(log0, doing, entries) {
      UnderwayNext(log1, Flash, doing, entries);
    }
    if log == log1 + [Flash] && FailuresNamed(log0, entries) {
      NamedNext(log1, Flash, entries);
    }
  }

  /** The outcome of an entry is logged. */
  lemma SteppedOutcome(log0: seq<Event>, log: seq<Event>, ev: Event, m0: Media, m: Media, doing: bool,
                       entries: seq<Entry>)
    requires Stepped(log0, log, m0, m, doing, entries)
    requires ev.Finished? || (ev.Failed? && ev.entry < |entries| && entries[ev.entry].enabled)
    ensures Stepped(log0, log + [ev], m0, m, doing, entries)
  {
    hide Underway, FailuresNamed, VersionStored;
    if !VersionStored(log) {
      NotStoredNext(log, ev);
    }
    if Underway(log0, doing, entries) {
      UnderwayNext(log, ev, doing, entries);
    }
    if FailuresNamed(log0, entries) {
      NamedNext(log, ev, entries);
    }
  }

  lemma SteppedTrans(log0: seq<Event>, log1: seq<Event>, log2: seq<Event>, m0: Media, m1: Media, m2: Media,
                     doing: bool, entries: seq<Entry>)
    requires Stepped(log0, log1, m0, m1, doing, entries) && Stepped(log1, log2, m1, m2, doing, entries)
    ensures Stepped(log0, log2, m0, m2, doing, entries)
  {
  }

  // ---- which entries succeed on a board without faults

  /** The check lets the entry pass. */
  predicate Passes(e: Entry, m: Media) {
    !e.enabled ||
    match e
    case Normal(_, _, _, _, _, length) => length <= Room(Target(e), m)
    case Remap(_, _, _, _, _, _, _) => Room(Source(e), m) <= Room(Target(e), m)
    case OtherType(_, _, _, _) => false
  }

  /** The entry succeeds: its image bytes can be had, or it has bytes to move, and they fit. */
  predicate Fits(e: Entry, m: Media, iob: Buffer) {
    !e.enabled ||
    match e
    case Normal(_, dev, _, _, _, length) =>
      OnFlash(dev) && length <= Room(Target(e), m) && iob.Delivers(length, From(e))
    case Remap(_, _, _, _, dev, _, _) => OnFlash(dev) && 0 < Room(Source(e), m) <= Room(Target(e), m)
    case OtherType(_, _, _, _) => false
  }

  /** The device of an entry that is switched on is not an eMMC. */
  predicate NotEmmc(e: Entry) {
    e.enabled ==> !e.dev.Emmc? && (e.Remap? ==> !e.oldDev.Emmc?)
  }

  /** No entry is for a device whose answers are not modelled. */
  predicate NoEmmc(entries: seq<Entry>) {
    forall k :: 0 <= k < |entries| ==> NotEmmc(entries[k])
  }

  ghost predicate AllPass(entries: seq<Entry>, m: Media) {
    forall k :: 0 <= k < |entries| ==> Passes(entries[k], m)
  }

  /** The first `i` entries of a kind succeed. */
  ghost predicate FitBefore(entries: seq<Entry>, i: nat, backups: bool, m: Media, iob: Buffer) {
    forall k :: 0 <= k < |entries| && k < i && entries[k].Remap? == backups ==> Fits(entries[k], m, iob)
  }

  ghost predicate AllFit(entries: seq<Entry>, m: Media, iob: Buffer) {
    forall k :: 0 <= k < |entries| ==> Fits(entries[k], m, iob)
  }

  ghost predicate FullBlocks(m: Media) {
    forall b :: 0 <= b < |m.blocks| ==> |m.blocks[b]| == m.nandErase
  }

  /** The room of a range depends on sizes and bad blocks alone. */
  lemma SameRoom(r: Range, m0: Media, m: Media)
    requires SameSize(m0, m) && m.bad == m0.bad && FullBlocks(m0) && FullBlocks(m)
    ensures Room(r, m) == Room(r, m0)
  {
    hide Nand.GoodBytes;
    if r.dev.AnyNand? && HasBlocks(r, m) {
      Nand.RoomKept(m0.blocks, m0.bad, m.blocks, m.bad, r.offset / m.nandErase, r.room / m.nandErase, m.nandErase);
    }
  }

  lemma SameFits(e: Entry, m0: Media, m: Media, iob: Buffer)
    requires SameSize(m0, m) && m.bad == m0.bad && FullBlocks(m0) && FullBlocks(m)
    ensures Passes(e, m) == Passes(e, m0) && Fits(e, m, iob) == Fits(e, m0, iob)
  {
    hide Room;
    SameRoom(Target(e), m0, m);
    if e.Remap? {
      SameRoom(Source(e), m0, m);
    }
  }

  lemma AllSameFits(entries: seq<Entry>, m0: Media, m: Media, iob: Buffer)
    requires SameSize(m0, m) && m.bad == m0.bad && FullBlocks(m0) && FullBlocks(m)
    ensures AllPass(entries, m) == AllPass(entries, m0) && AllFit(entries, m, iob) == AllFit(entries, m0, iob)
    ensures FitBefore(entries, |entries|, false, m, iob) == FitBefore(entries, |entries|, false, m0, iob)
  {
    hide Passes, Fits;
    forall k | 0 <= k < |entries|
      ensures Passes(entries[k], m) == Passes(entries[k], m0) && Fits(entries[k], m, iob) == Fits(entries[k], m0, iob)
    {
      SameFits(entries[k], m0, m, iob);
    }
  }

  lemma FitStarts(entries: seq<Entry>, backups: bool, m: Media, iob: Buffer)
    ensures FitBefore(entries, 0, backups, m, iob)
  {
  }

  lemma FitNext(entries: seq<Entry>, i: nat, backups: bool, m: Media, iob: Buffer)
    requires i < |entries|
    ensures FitBefore(entries, i + 1, backups, m, iob) <==>
            FitBefore(entries, i, backups, m, iob) && (entries[i].Remap? == backups ==> Fits(entries[i], m, iob))
  {
    hide Fits;
  }

  /** A backup on a board without faults. */
  lemma BackupIsFit(e: Entry, m: Media, iob: Buffer, ok: bool)
    requires e.Remap? && (!e.enabled ==> ok)
    requires e.enabled && OnFlash(e.dev) ==> (ok <==> 0 < Room(Source(e), m) <= Room(Target(e), m))
    requires e.enabled ==> !e.dev.Emmc? && (e.dev.Unsupported? ==> !ok)
    ensures ok <==> Fits(e, m, iob)
  {
    hide Room;
  }

  /** The board is as free of faults as at the start, and no block has gone bad. */
  ghost predicate Steady(board: Board, bad0: seq<bool>)
    reads board.nand`bad, board.nand`failing
  {
    board.FaultFree() && board.nand.bad == bad0
  }

  /** What succeeds has passed the check. */
  lemma FitsPass(entries: seq<Entry>, m: Media, iob: Buffer)
    ensures AllFit(entries, m, iob) <==>
              && AllPass(entries, m) && FitBefore(entries, |entries|, true, m, iob)
              && FitBefore(entries, |entries|, false, m, iob)
  {
    hide Room;
    forall k | 0 <= k < |entries| && Fits(entries[k], m, iob) ensures Passes(entries[k], m) {
    }
  }

  // ---- the loop over all entries before anything is written

  /** Refuses the run at the first entry that has no room. */
  method CheckAll(board: Board, entries: seq<Entry>, ghost image: seq<Cell>, ghost doing: bool) returns (rc: int)
    requires board.Valid() && AllAdmissible(entries, board.Contents(), image)
    modifies board`log
    ensures board.Valid() && board.Contents() == old(board.Contents())
    ensures Stepped(old(board.log), board.log, board.Contents(), board.Contents(), doing, entries)
    ensures rc == 0 || rc == ERR_UPGRADE
    ensures Counted(old(board.log), board.log, rc != 0)
    ensures rc == 0 ==> AllChecked(entries, board.Contents(), image)
    ensures NoEmmc(entries) ==> (rc == 0 <==> AllPass(entries, board.Contents()))
  {
    hide Admissible, Nand.GoodBytes, Underway, FailuresNamed, VersionStored, Counted, Checked, Room;
    hide NorWriter.PowerOfTwo;
    NoneFailed(board.log);
    for i := 0 to |entries|
      invariant board.log == old(board.log)
      invariant NoEmmc(entries) ==> forall k :: 0 <= k < i ==> Passes(entries[k], board.Contents())
      invariant forall k :: 0 <= k < i && entries[k].enabled ==> Checked(entries[k], board.Contents(), image)
    {
      rc := CheckBlockSpace(board, entries[i], image);
      if rc != 0 {
        SteppedOutcome(board.log, board.log, Failed(i), board.Contents(), board.Contents(), doing, entries);
        CountedNext(board.log, board.log, false, Failed(i));
        board.log := board.log + [Failed(i)];
        return;
      }
      PassedIsChecked(entries[i], board.Contents(), image);
    }
    rc := 0;
  }

  // ---- the entries that move data inside a device

  /** Nothing written before entry `k` runs overlaps its old range, and nothing else its new one. */
  ghost predicate Undisturbed(entries: seq<Entry>, k: nat, es: nat)
    requires k < |entries| && entries[k].Remap? && 0 < es
  {
    && (forall l :: 0 <= l < k && entries[l].Remap? && entries[l].enabled ==>
          Apart(Source(entries[k]), Target(entries[l]), es))
    && (forall l :: 0 <= l < |entries| && (entries[l].Normal? || (entries[l].Remap? && k < l)) && entries[l].enabled ==>
          Apart(Target(entries[k]), Target(entries[l]), es))
  }

  /** The undisturbed ones of the first `i` entries hold what their old ranges held in `m0`. */
  ghost predicate BackedUpBefore(entries: seq<Entry>, i: nat, m0: Media, m: Media)
    requires i <= |entries|
  {
    forall k :: 0 <= k < i && entries[k].Remap? && entries[k].enabled && Undisturbed(entries, k, m.nandErase) ==>
      BackedUp(entries[k], m0, m)
  }

  /** The old ranges of the other ones still hold what they held. */
  ghost predicate SourcesKept(entries: seq<Entry>, i: nat, m0: Media, m: Media)
    requires i <= |entries|
  {
    forall k ::
      i <= k < |entries| && entries[k].Remap? && entries[k].enabled && Undisturbed(entries, k, m.nandErase) ==>
      SameRange(Source(entries[k]), m0, m)
  }

  lemma SizeKept(r: Range, m0: Media, m: Media)
    requires OnlyIn(r, m0, m)
    ensures SameSize(m0, m)
  {
  }

  lemma CheckedSource(e: Entry, m: Media, image: seq<Cell>)
    requires e.Remap? && Checked(e, m, image)
    ensures e.dev == e.oldDev && (e.dev.AnyNand? ==> HasBlocks(Source(e), m))
  {
    if e.dev.AnyNand? {
      Nand.RangeInside(e.oldOffset, e.oldLength, m.nandErase, |m.blocks|);
    }
  }

  lemma BackupNext(entries: seq<Entry>, i: nat, m0: Media, m1: Media, m: Media, image: seq<Cell>)
    requires i < |entries| && entries[i].Remap? && AllChecked(entries, m0, image) && SameSize(m0, m1)
    requires BackedUpBefore(entries, i, m0, m1) && SourcesKept(entries, i, m0, m1)
    requires OnlyIn(Target(entries[i]), m1, m) && if entries[i].enabled then BackedUp(entries[i], m1, m) else m == m1
    ensures BackedUpBefore(entries, i + 1, m0, m) && SourcesKept(entries, i + 1, m0, m)
  {
    hide BackedUp, OnlyIn, Apart, SameRange, Checked;
    SizeKept(Target(entries[i]), m1, m);
    if entries[i].enabled {
      forall k | 0 <= k < i + 1 && entries[k].Remap? && entries[k].enabled && Undisturbed(entries, k, m.nandErase)
        ensures BackedUp(entries[k], m0, m)
      {
        if k == i {
          CheckedSource(entries[i], m0, image);
          SourceKept(entries[i], m0, m1, m);
        } else {
          ApartSame(Target(entries[k]), Target(entries[i]), m1, m);
          BackedUpKept(entries[k], m0, m1, m);
        }
      }
      forall k | i + 1 <= k < |entries| && entries[k].Remap? && entries[k].enabled &&
                 Undisturbed(entries, k, m.nandErase)
        ensures SameRange(Source(entries[k]), m0, m)
      {
        ApartSame(Source(entries[k]), Target(entries[i]), m1, m);
        SameRangeTrans(Source(entries[k]), m0, m1, m);
      }
    }
  }

  lemma NothingRun(entries: seq<Entry>, m: Media)
    ensures Confined(entries, m, m) && BackedUpBefore(entries, 0, m, m) && SourcesKept(entries, 0, m, m)
  {
  }

  lemma BackupSkip(entries: seq<Entry>, i: nat, m0: Media, m: Media)
    requires i < |entries| && !entries[i].Remap?
    requires BackedUpBefore(entries, i, m0, m) && SourcesKept(entries, i, m0, m)
    ensures BackedUpBefore(entries, i + 1, m0, m) && SourcesKept(entries, i + 1, m0, m)
  {
    hide BackedUp, Undisturbed, SameRange;
  }

  lemma ContentsFull(board: Board)
    requires board.Valid()
    ensures FullBlocks(board.Contents())
  {
  }

  /** One backup, some time after the one before. */
  method BackupNow(board: Board, e: Entry, ghost image: seq<Cell>, ghost m0: Media, ghost iob: Buffer)
    returns (rc: int)
    requires board.Valid() && e.Remap? && (e.enabled ==> Admissible(e, board.Contents(), image))
    requires SameSize(m0, board.Contents()) && FullBlocks(m0)
    modifies board`log, board.nor, board.nand
    ensures Wrote(board, Target(e))
    ensures board.log == old(board.log) || board.log == old(board.log) + [Flash]
    ensures board.log == old(board.log) ==> board.Contents() == old(board.Contents())
    ensures rc == 0 ==> OnlyIn(Target(e), old(board.Contents()), board.Contents())
    ensures !e.enabled ==> rc == 0 && board.log == old(board.log)
    ensures e.enabled && rc == 0 ==> BackedUp(e, old(board.Contents()), board.Contents())
    ensures old(Steady(board, m0.bad)) ==> Steady(board, m0.bad) && (NotEmmc(e) ==> (rc == 0 <==> Fits(e, m0, iob)))
  {
    hide Admissible, Reaches, BackedUp, OnlyIn, Room, NorWriter.PowerOfTwo, Fits;
    ghost var m1 := board.Contents();
    ContentsFull(board);
    board.nand.Age();
    rc := DoBackup(board, e, image);
    if old(Steady(board, m0.bad)) {
      Nand.NoneWorn(m0.bad, board.nand.bad, board.nand.failing);
      if NotEmmc(e) {
        BackupIsFit(e, m1, iob, rc == 0);
        SameFits(e, m0, m1, iob);
      }
    }
  }

  /** Goes on after failures, which only the result tells. */
  method Backups(board: Board, entries: seq<Entry>, ghost image: seq<Cell>, ghost doing: bool, ghost iob: Buffer)
    returns (failed: bool)
    requires board.Valid() && AllChecked(entries, board.Contents(), image)
    modifies board`log, board.nor, board.nand
    ensures board.Valid() && board.nor.clean == old(board.nor.clean)
    ensures Counted(old(board.log), board.log, failed)
    ensures Stepped(old(board.log), board.log, old(board.Contents()), board.Contents(), doing, entries)
    ensures Confined(entries, old(board.Contents()), board.Contents())
    ensures !failed ==> FinishedBefore(board.log, entries, |entries|, true)
    ensures !failed ==> BackedUpBefore(entries, |entries|, old(board.Contents()), board.Contents())
    ensures OutcomesBefore(board.log, entries, |entries|, true)
    ensures old(board.FaultFree()) ==>
              && Steady(board, old(board.nand.bad))
              && (NoEmmc(entries) ==> (!failed <==> FitBefore(entries, |entries|, true, old(board.Contents()), iob)))
  {
    hide OutcomesBefore, FitBefore, Fits, NotEmmc, FullBlocks;
    hide Underway, FailuresNamed, VersionStored, SafePoint, Counted, Admissible, BackedUp, OnlyIn, Confined;
    hide Undisturbed, NorWriter.PowerOfTwo, SourcesKept, BackedUpBefore, Reaches, HasBlock;
    ghost var log0, m0 := board.log, board.Contents();
    failed := false;
    NoneFailed(log0);
    NothingRun(entries, m0);
    ghost var quiet := board.FaultFree();
    NoOutcomeYet(log0, entries, true);
    ContentsFull(board);
    FitStarts(entries, true, m0, iob);
    for i := 0 to |entries|
      invariant board.Valid() && board.nor.clean == old(board.nor.clean)
      invariant OutcomesBefore(board.log, entries, i, true) && (quiet ==> Steady(board, m0.bad))
      invariant quiet && NoEmmc(entries) ==> (!failed <==> FitBefore(entries, i, true, m0, iob))
      invariant Counted(log0, board.log, failed)
      invariant Stepped(log0, board.log, m0, board.Contents(), doing, entries)
      invariant Confined(entries, m0, board.Contents())
      invariant !failed ==> FinishedBefore(board.log, entries, i, true)
      invariant !failed ==>
                  BackedUpBefore(entries, i, m0, board.Contents()) && SourcesKept(entries, i, m0, board.Contents())
    {
      ghost var log1, m1 := board.log, board.Contents();
      if entries[i].Remap? {
        CheckedKept(entries, m0, m1, image);
        var rc := BackupNow(board, entries[i], image, m0, iob);
        ghost var m := board.Contents();
        SteppedNext(log0, log1, board.log, m0, m1, m, doing, entries);
        ConfinedNext(entries, i, m0, m1, m);
        CountedStep(log0, log1, board.log, failed);
        if rc == 0 && !failed {
          BackupNext(entries, i, m0, m1, m, image);
        }
        ghost var ev := if rc == 0 then Finished(i) else Failed(i);
        SteppedOutcome(log0, board.log, ev, m0, m, doing, entries);
        CountedNext(log0, board.log, failed, ev);
        OutcomeNext(log1, board.log, ev, entries, i, true);
        board.log := board.log + [ev];
        failed := failed || rc != 0;
      } else {
        OutcomeSkip(log1, entries, i, true);
        if !failed {
          BackupSkip(entries, i, m0, m1);
        }
      }
      FitNext(entries, i, true, m0, iob);
    }
  }

  // ---- the entries whose bytes come from the image

  /** No later normal entry overlaps entry `k`. */
  ghost predicate LaterApart(entries: seq<Entry>, k: nat, i: nat, es: nat)
    requires k < i <= |entries| && 0 < es
  {
    forall l :: k < l < i && entries[l].Normal? && entries[l].enabled ==>
      Apart(Target(entries[k]), Target(entries[l]), es)
  }

  /** In its place, unless its range has lost all blocks. */
  ghost predicate Placed(e: Entry, m: Media, image: seq<Cell>)
    requires e.Normal?
  {
    Stored(e, m, image) <==> !Lost(e, m)
  }

  /** The normal entries before `i` are in their places unless a later one was put there. */
  ghost predicate PlacedBefore(entries: seq<Entry>, i: nat, m: Media, image: seq<Cell>)
    requires i <= |entries|
  {
    forall k :: 0 <= k < i && entries[k].Normal? && entries[k].enabled && LaterApart(entries, k, i, m.nandErase) ==>
      Placed(entries[k], m, image)
  }

  lemma PlacedKept(e: Entry, f: Range, m0: Media, m: Media, image: seq<Cell>)
    requires e.Normal? && Placed(e, m0, image) && OnlyIn(f, m0, m) && Apart(Target(e), f, m.nandErase)
    ensures Placed(e, m, image)
  {
    hide Stored, Lost;
    ApartSame(Target(e), f, m0, m);
    StoredKept(e, m0, m, image);
    if Lost(e, m) {
      LostIsNotStored(e, m, image);
    }
  }

  lemma PlacedNext(entries: seq<Entry>, i: nat, m0: Media, m: Media, image: seq<Cell>)
    requires i < |entries| && PlacedBefore(entries, i, m0, image) && entries[i].Normal?
    requires OnlyIn(Target(entries[i]), m0, m) && if entries[i].enabled then Placed(entries[i], m, image) else m == m0
    ensures PlacedBefore(entries, i + 1, m, image)
  {
    hide Placed, OnlyIn, Apart;
    SizeKept(Target(entries[i]), m0, m);
    forall k | 0 <= k < i + 1 && entries[k].Normal? && entries[k].enabled && LaterApart(entries, k, i + 1, m.nandErase)
      ensures Placed(entries[k], m, image)
    {
      if k < i {
        assert LaterApart(entries, k, i, m.nandErase);
        if entries[i].enabled {
          PlacedKept(entries[k], Target(entries[i]), m0, m, image);
        }
      }
    }
  }

  lemma PlacedSkip(entries: seq<Entry>, i: nat, m: Media, image: seq<Cell>)
    requires i < |entries| && !entries[i].Normal? && PlacedBefore(entries, i, m, image)
    ensures PlacedBefore(entries, i + 1, m, image)
  {
    hide Placed, Apart;
  }

  /** A normal entry leaves undisturbed backups alone. */
  lemma BackupsKept(entries: seq<Entry>, i: nat, m0: Media, m1: Media, m: Media)
    requires i < |entries| && entries[i].Normal? && BackedUpBefore(entries, |entries|, m0, m1)
    requires OnlyIn(Target(entries[i]), m1, m) && (entries[i].enabled || m == m1)
    ensures BackedUpBefore(entries, |entries|, m0, m)
  {
    hide BackedUp, OnlyIn, Apart;
    SizeKept(Target(entries[i]), m1, m);
    if entries[i].enabled {
      forall k | 0 <= k < |entries| && entries[k].Remap? && entries[k].enabled && Undisturbed(entries, k, m.nandErase)
        ensures BackedUp(entries[k], m0, m)
      {
        ApartSame(Target(entries[k]), Target(entries[i]), m1, m);
        BackedUpKept(entries[k], m0, m1, m);
      }
    }
  }

  lemma KindsOf(entries: seq<Entry>, i: nat, m: Media)
    requires i < |entries|
    ensures NoEmmc(entries) ==> NotEmmc(entries[i])
    ensures AllPass(entries, m) ==> Passes(entries[i], m)
  {
  }

  /** A checked entry without image bytes is a backup or switched off. */
  lemma NoNormal(entries: seq<Entry>, i: nat, m: Media, iob: Buffer)
    requires i < |entries| && !entries[i].Normal? && AllChecked(entries, m, iob.image)
    ensures entries[i].Remap? || (!entries[i].enabled && Fits(entries[i], m, iob))
  {
  }

  lemma NothingPlaced(entries: seq<Entry>, m: Media, image: seq<Cell>)
    ensures PlacedBefore(entries, 0, m, image)
  {
  }

  lemma HeldPart(g: seq<Cell>, body: seq<Cell>, from: nat, n: nat)
    requires Nand.Holds(g, body, from, n)
    ensures from + n <= |body|
  {
  }

  /** What has succeeded fits. */
  lemma DoneFits(e: Entry, m0: Media, m: Media, iob: Buffer)
    requires e.Normal? && OnFlash(e.dev) && Passes(e, m0) && iob.kind != Missing
    requires SameSize(m0, m) && m.bad == m0.bad && FullBlocks(m0) && FullBlocks(m)
    requires Stored(e, m, iob.image) || Lost(e, m)
    ensures Fits(e, m0, iob)
  {
    hide Nand.GoodBytes, Nand.Holds;
    SameRoom(Target(e), m0, m);
    if Stored(e, m, iob.image) && e.dev.AnyNand? {
      HeldPart(Held(Target(e), m), iob.image[64 + 1024..], e.payload, e.length);
    }
  }

  /** One entry with image bytes, some time after the one before. */
  method UpgradeNow(board: Board, iob: Buffer, e: Entry, ghost m0: Media) returns (rc: int)
    requires board.Valid() && iob.Valid() && e.Normal?
    requires e.enabled ==> Checked(e, board.Contents(), iob.image)
    requires SameSize(m0, board.Contents()) && FullBlocks(m0)
    modifies board`log, board.nor, board.nand, iob`len, iob`pos, iob`offset, iob.buf
    ensures iob.Valid() && Wrote(board, Target(e))
    ensures board.log == old(board.log) || board.log == old(board.log) + [Flash]
    ensures board.log == old(board.log) ==> board.Contents() == old(board.Contents())
    ensures rc == 0 ==> OnlyIn(Target(e), old(board.Contents()), board.Contents())
    ensures !e.enabled ==> rc == 0 && board.log == old(board.log)
    ensures e.enabled && rc == 0 ==> Placed(e, board.Contents(), iob.image)
    ensures old(Steady(board, m0.bad)) ==>
              && Steady(board, m0.bad)
              && (NotEmmc(e) && Passes(e, m0) && iob.kind != Missing ==> (rc == 0 <==> Fits(e, m0, iob)))
  {
    hide Admissible, Checked, Reaches, OnlyIn, Room, NorWriter.PowerOfTwo, Stored, Lost, NoneLeft, Buffer.Valid;
    hide HasBlocks, Buffer.Delivers;
    ghost var m1 := board.Contents();
    ContentsFull(board);
    board.nand.Age();
    rc := DoUpgrade(board, iob, e);
    ContentsFull(board);
    if old(Steady(board, m0.bad)) {
      Nand.NoneWorn(m0.bad, board.nand.bad, board.nand.failing);
      SameRoom(Target(e), m0, m1);
      if e.enabled && rc == 0 && OnFlash(e.dev) && Passes(e, m0) && iob.kind != Missing {
        DoneFits(e, m0, board.Contents(), iob);
      }
    }
  }

  /** What the loop below has done and kept after `i` entries. */
  ghost predicate Going(log0: seq<Event>, log: seq<Event>, m00: Media, m0: Media, m: Media, doing: bool,
                        entries: seq<Entry>, i: nat, failed: bool, image: seq<Cell>, backed: bool)
    requires i <= |entries|
  {
    && Counted(log0, log, failed) && Stepped(log0, log, m0, m, doing, entries) && Confined(entries, m0, m)
    && OutcomesBefore(log, entries, i, false)
    && (!failed ==> FinishedBefore(log, entries, i, false) && PlacedBefore(entries, i, m, image))
    && (!failed && backed ==> BackedUpBefore(entries, |entries|, m00, m))
  }

  lemma GoingStarts(log: seq<Event>, m00: Media, m: Media, doing: bool, entries: seq<Entry>, image: seq<Cell>,
                    backed: bool)
    requires backed ==> BackedUpBefore(entries, |entries|, m00, m)
    ensures Going(log, log, m00, m, m, doing, entries, 0, false, image, backed)
  {
    hide BackedUpBefore, Confined, Underway;
    NoneFailed(log);
    NothingRun(entries, m);
    NothingPlaced(entries, m, image);
    NoOutcomeYet(log, entries, false);
  }

  lemma GoingSize(log0: seq<Event>, log: seq<Event>, m00: Media, m0: Media, m: Media, doing: bool,
                  entries: seq<Entry>, i: nat, failed: bool, image: seq<Cell>, backed: bool)
    requires i <= |entries| && Going(log0, log, m00, m0, m, doing, entries, i, failed, image, backed)
    ensures SameSize(m0, m)
  {
  }

  lemma EntryChecked(entries: seq<Entry>, i: nat, m0: Media, m: Media, image: seq<Cell>)
    requires i < |entries| && AllChecked(entries, m0, image) && SameSize(m0, m)
    ensures entries[i].enabled ==> Checked(entries[i], m, image)
  {
    CheckedKept(entries, m0, m, image);
  }

  /** One entry with image bytes later. */
  lemma Goes(log0: seq<Event>, log1: seq<Event>, log: seq<Event>, ev: Event, m00: Media, m0: Media, m1: Media,
             m: Media, doing: bool, entries: seq<Entry>, i: nat, failed: bool, ok: bool, image: seq<Cell>,
             backed: bool)
    requires i < |entries| && Going(log0, log1, m00, m0, m1, doing, entries, i, failed, image, backed)
    requires entries[i].Normal? && OnlyReached(Target(entries[i]), m1, m)
    requires (log == log1 && m == m1) || (log == log1 + [Flash] && entries[i].enabled)
    requires ok ==>
               && OnlyIn(Target(entries[i]), m1, m)
               && if entries[i].enabled then Placed(entries[i], m, image) else m == m1
    requires if ok then ev == Finished(i) else ev == Failed(i) && entries[i].enabled
    ensures Going(log0, log + [ev], m00, m0, m, doing, entries, i + 1, failed || !ok, image, backed)
  {
    hide Underway, Counted, Confined, BackedUpBefore, PlacedBefore, OnlyIn, Placed, OutcomesBefore, FailuresNamed;
    SteppedNext(log0, log1, log, m0, m1, m, doing, entries);
    ConfinedNext(entries, i, m0, m1, m);
    CountedStep(log0, log1, log, failed);
    if ok && !failed {
      PlacedNext(entries, i, m1, m, image);
      if backed {
        BackupsKept(entries, i, m00, m1, m);
      }
    }
    SteppedOutcome(log0, log, ev, m0, m, doing, entries);
    CountedNext(log0, log, failed, ev);
    OutcomeNext(log1, log, ev, entries, i, false);
  }

  /** Another entry. */
  lemma GoesOn(log0: seq<Event>, log: seq<Event>, m00: Media, m0: Media, m: Media, doing: bool,
               entries: seq<Entry>, i: nat, failed: bool, image: seq<Cell>, backed: bool)
    requires i < |entries| && Going(log0, log, m00, m0, m, doing, entries, i, failed, image, backed)
    requires entries[i].Remap? || (!entries[i].enabled && !entries[i].Normal?)
    ensures Going(log0, log, m00, m0, m, doing, entries, i + 1, failed, image, backed)
  {
    hide Underway, Counted, Confined, BackedUpBefore, PlacedBefore, OutcomesBefore, Stepped;
    OutcomeSkip(log, entries, i, false);
    if !failed {
      PlacedSkip(entries, i, m, image);
    }
  }

  lemma GoingEnds(log0: seq<Event>, log: seq<Event>, m00: Media, m0: Media, m: Media, doing: bool,
                  entries: seq<Entry>, failed: bool, image: seq<Cell>, backed: bool)
    requires Going(log0, log, m00, m0, m, doing, entries, |entries|, failed, image, backed)
    ensures Counted(log0, log, failed) && Stepped(log0, log, m0, m, doing, entries) && Confined(entries, m0, m)
    ensures OutcomesBefore(log, entries, |entries|, false)
    ensures !failed ==> FinishedBefore(log, entries, |entries|, false) && PlacedBefore(entries, |entries|, m, image)
    ensures !failed && backed ==> BackedUpBefore(entries, |entries|, m00, m)
  {
  }

  /** The loop over the entries whose bytes come from the image; complete backups of `m00` stay complete. */
  method Upgrades(board: Board, iob: Buffer, entries: seq<Entry>, ghost doing: bool, ghost m00: Media)
    returns (failed: bool)
    requires board.Valid() && iob.Valid() && AllChecked(entries, board.Contents(), iob.image)
    modifies board`log, board.nor, board.nand, iob`len, iob`pos, iob`offset, iob.buf
    ensures board.Valid() && iob.Valid() && board.nor.clean == old(board.nor.clean)
    ensures Counted(old(board.log), board.log, failed)
    ensures Stepped(old(board.log), board.log, old(board.Contents()), board.Contents(), doing, entries)
    ensures Confined(entries, old(board.Contents()), board.Contents())
    ensures !failed ==> FinishedBefore(board.log, entries, |entries|, false)
    ensures !failed ==> PlacedBefore(entries, |entries|, board.Contents(), iob.image)
    ensures !failed && BackedUpBefore(entries, |entries|, m00, old(board.Contents())) ==>
              BackedUpBefore(entries, |entries|, m00, board.Contents())
    ensures OutcomesBefore(board.log, entries, |entries|, false)
    ensures old(board.FaultFree()) ==>
              && Steady(board, old(board.nand.bad))
              && (NoEmmc(entries) && AllPass(entries, old(board.Contents())) && iob.kind != Missing ==>
                    (!failed <==> FitBefore(entries, |entries|, false, old(board.Contents()), iob)))
  {
    hide Going, BackedUpBefore, FitBefore, Fits, NotEmmc, FullBlocks, Passes, NoEmmc, AllPass, AllChecked;
    hide NorWriter.PowerOfTwo, Buffer.Valid, Placed, Checked, OnlyIn, Stepped, Counted, PlacedBefore, Confined;
    hide FinishedBefore, OutcomesBefore, Reaches, HasBlock;
    ghost var log0, m0 := board.log, board.Contents();
    ghost var backed := BackedUpBefore(entries, |entries|, m00, m0);
    failed := false;
    GoingStarts(log0, m00, m0, doing, entries, iob.image, backed);
    ghost var quiet := board.FaultFree();
    ghost var fine := quiet && NoEmmc(entries) && AllPass(entries, m0) && iob.kind != Missing;
    ContentsFull(board);
    FitStarts(entries, false, m0, iob);
    for i := 0 to |entries|
      invariant board.Valid() && iob.Valid() && board.nor.clean == old(board.nor.clean)
      invariant Going(log0, board.log, m00, m0, board.Contents(), doing, entries, i, failed, iob.image, backed)
      invariant quiet ==> Steady(board, m0.bad)
      invariant fine ==> (!failed <==> FitBefore(entries, i, false, m0, iob))
    {
      ghost var log1, m1 := board.log, board.Contents();
      KindsOf(entries, i, m0);
      GoingSize(log0, log1, m00, m0, m1, doing, entries, i, failed, iob.image, backed);
      EntryChecked(entries, i, m0, m1, iob.image);
      if entries[i].Normal? {
        var rc := UpgradeNow(board, iob, entries[i], m0);
        ghost var ev, log2 := if rc == 0 then Finished(i) else Failed(i), board.log;
        board.log := board.log + [ev];
        Goes(log0, log1, log2, ev, m00, m0, m1, board.Contents(), doing, entries, i, failed, rc == 0, iob.image,
             backed);
        failed := failed || rc != 0;
      } else {
        NoNormal(entries, i, m0, iob);
        GoesOn(log0, log1, m00, m0, m1, doing, entries, i, failed, iob.image, backed);
      }
      FitNext(entries, i, false, m0, iob);
    }
    GoingEnds(log0, board.log, m00, m0, board.Contents(), doing, entries, failed, iob.image, backed);
  }

  // ---- the run

  /** `hcfota_erase_mtd` on either device; its result is not looked at. */
  method EraseChips(board: Board, nor: bool, nand: bool, ghost doing: bool, ghost entries: seq<Entry>)
    requires board.Valid()
    modifies board`log, board.nor, board.nand
    ensures board.Valid() && board.nor.clean == old(board.nor.clean)
    ensures Stepped(old(board.log), board.log, old(board.Contents()), board.Contents(), doing, entries)
    ensures Counted(old(board.log), board.log, false)
    ensures !nor ==> board.nor.data == old(board.nor.data)
    ensures !nand ==> board.nand.blocks == old(board.nand.blocks)
    ensures board.nand.bad == old(board.nand.bad) && board.nand.failing == old(board.nand.failing)
    ensures nor && board.nor.faults.Stuck? ==> IsBlank(board.nor.data)
    ensures nand ==>
              forall b :: 0 <= b < |board.nand.blocks| && b !in board.nand.failing ==>
                board.nand.blocks[b] == Blank(board.nand.eraseSize)
  {
    hide Underway, FailuresNamed, VersionStored, SafePoint, Counted, Blank;
    ghost var log0, m0 := board.log, board.Contents();
    NoneFailed(log0);
    if nor {
      board.log := board.log + [Flash];
      var n := |board.nor.data| / board.nor.eraseSize;
      assert n * board.nor.eraseSize == |board.nor.data|;
      var _ := board.nor.Erase(0, n);
      SteppedNext(log0, log0, board.log, m0, m0, board.Contents(), doing, entries);
      CountedStep(log0, log0, board.log, false);
    }
    ghost var log1, m1 := board.log, board.Contents();
    if nand {
      board.log := board.log + [Flash];
      var _ := board.nand.EraseAll();
      SteppedNext(log0, log1, board.log, m0, m1, board.Contents(), doing, entries);
      CountedStep(log0, log1, board.log, false);
    }
  }

  /** What can go wrong when whole chips are erased: anything on the NOR device, and certain NAND blocks. */
  datatype ChipFaults = ChipFaults(nor: Faults, worn: set<nat>)

  /**
    What erasing chips at the start makes of them: all cells of a NOR device that works, and all NAND
    blocks that are not worn out.
   */
  ghost predicate ChipsErased(header: Header, m0: Media, m1: Media, f: ChipFaults) {
    && SameSize(m0, m1) && m1.bad == m0.bad
    && (if header.eraseNor then f.nor.Stuck? ==> IsBlank(m1.nor) else m1.nor == m0.nor)
    && (if header.eraseNand then
          forall b :: 0 <= b < |m1.blocks| && b !in f.worn ==> m1.blocks[b] == Blank(m1.nandErase)
        else m1.blocks == m0.blocks)
  }

  lemma SameCells(entries: seq<Entry>, i: int, m0: Media, m1: Media)
    requires SameSize(m0, m1)
    ensures CellReached(entries, i, m0) == CellReached(entries, i, m1)
  {
    hide Reaches;
    forall k | 0 <= k < |entries|
      ensures Reaches(Target(entries[k]), i, m1) == Reaches(Target(entries[k]), i, m0)
    {
      SameReaches(Target(entries[k]), i, m0, m1);
    }
  }

  lemma ConfinedTrans(entries: seq<Entry>, m0: Media, m1: Media, m: Media)
    requires Confined(entries, m0, m1) && Confined(entries, m1, m)
    ensures Confined(entries, m0, m)
  {
    hide Reaches, HasBlock;
    forall i | 0 <= i < |m.nor| && !CellReached(entries, i, m0) ensures m.nor[i] == m0.nor[i] {
      SameCells(entries, i, m0, m1);
    }
  }

  ghost function FaultsOf(board: Board): ChipFaults
    reads board.nand`failing
  {
    ChipFaults(board.nor.faults, board.nand.failing)
  }

  /** The part of the run between setting and clearing the flag; `m1` is what chip erases leave. */
  method Apply(board: Board, iob: Buffer, header: Header, entries: seq<Entry>, ghost doing: bool)
    returns (rc: int, ghost m1: Media)
    requires board.Valid() && iob.Valid() && AllAdmissible(entries, board.Contents(), iob.image)
    modifies board`log, board.nor, board.nand, iob`len, iob`pos, iob`offset, iob.buf
    ensures board.Valid() && iob.Valid() && board.nor.clean == old(board.nor.clean)
    ensures Stepped(old(board.log), board.log, old(board.Contents()), board.Contents(), doing, entries)
    ensures rc == 0 || rc == ERR_UPGRADE
    ensures Counted(old(board.log), board.log, rc != 0)
    ensures ChipsErased(header, old(board.Contents()), m1, old(FaultsOf(board)))
    ensures Confined(entries, m1, board.Contents())
    ensures || board.Contents() == m1
            || (OutcomesBefore(board.log, entries, |entries|, true) &&
                OutcomesBefore(board.log, entries, |entries|, false))
    ensures old(board.FaultFree()) && NoEmmc(entries) && iob.kind != Missing ==>
              (rc == 0 <==> AllFit(entries, old(board.Contents()), iob))
    ensures rc == 0 ==>
              && AllFinished(board.log, entries) && PlacedBefore(entries, |entries|, board.Contents(), iob.image)
              && BackedUpBefore(entries, |entries|, m1, board.Contents())
  {
    hide Underway, FailuresNamed, VersionStored, SafePoint, Admissible, Checked, Buffer.Valid, Counted, Confined;
    hide NorWriter.PowerOfTwo;
    hide BackedUpBefore, PlacedBefore, FitBefore, AllFit, AllPass, NoEmmc, OutcomesBefore, FullBlocks, Blank;
    ghost var log0, m0 := board.log, board.Contents();
    ContentsFull(board);
    EraseChips(board, header.eraseNor, header.eraseNand, doing, entries);
    ghost var log1 := board.log;
    m1 := board.Contents();
    ContentsFull(board);
    AllSameFits(entries, m0, m1, iob);
    FitsPass(entries, m1, iob);
    NothingRun(entries, m1);
    CheckedKept(entries, m0, m1, iob.image);
    rc := CheckAll(board, entries, iob.image, doing);
    ghost var log1' := board.log;
    SteppedTrans(log0, log1, log1', m0, m1, m1, doing, entries);
    CountedTrans(log0, log1, log1', false, rc != 0);
    if rc != 0 {
      return;
    }
    var failed := Backups(board, entries, iob.image, doing, iob);
    ghost var log2, m2 := board.log, board.Contents();
    SteppedTrans(log0, log1', log2, m0, m1, m2, doing, entries);
    CountedTrans(log0, log1', log2, false, failed);
    CheckedKept(entries, m1, m2, iob.image);
    ContentsFull(board);
    if board.FaultFree() && board.nand.bad == m1.bad {
      AllSameFits(entries, m1, m2, iob);
    }
    var failed2 := Upgrades(board, iob, entries, doing, m1);
    SteppedTrans(log0, log2, board.log, m0, m2, board.Contents(), doing, entries);
    CountedTrans(log0, log2, board.log, failed, failed2);
    ConfinedTrans(entries, m1, m2, board.Contents());
    OutcomesStay(log2, board.log, entries, |entries|, true);
    rc := if failed || failed2 then ERR_UPGRADE else 0;
  }

  /** The device's contents are erased before the entries run. */
  predicate Wiped(header: Header, dev: DevType) {
    (dev.SpiNor? && header.eraseNor) || (dev.AnyNand? && header.eraseNand)
  }

  /** On devices that are not erased as a whole, nothing out of the reach of all entries has changed. */
  ghost predicate RunConfined(header: Header, entries: seq<Entry>, m0: Media, m: Media) {
    && SameSize(m0, m)
    && (!header.eraseNor ==> ConfinedNor(entries, m0, m))
    && (!header.eraseNand ==> ConfinedNand(entries, m0, m))
    && forall b :: 0 <= b < |m.bad| && !BlockReached(entries, b, m.nandErase) ==> m.bad[b] == m0.bad[b]
  }

  /** Where whole chips have been erased and no entry reaches, everything reads 0xff. */
  ghost predicate ChipsBlank(header: Header, entries: seq<Entry>, m: Media, f: ChipFaults) {
    && (header.eraseNor && f.nor.Stuck? ==>
          forall i :: 0 <= i < |m.nor| && !CellReached(entries, i, m) ==> m.nor[i] == ERASED)
    && (header.eraseNand ==>
          forall b :: 0 <= b < |m.blocks| && !BlockReached(entries, b, m.nandErase) && b !in f.worn ==>
            m.blocks[b] == Blank(m.nandErase))
  }

  /** Every entry that is switched on has been run to an outcome, or the run was refused and only erased chips. */
  ghost predicate RunToEnd(header: Header, entries: seq<Entry>, log: seq<Event>, m0: Media, m: Media, f: ChipFaults) {
    (OutcomesBefore(log, entries, |entries|, true) && OutcomesBefore(log, entries, |entries|, false))
    || ChipsErased(header, m0, m, f)
  }

  /**
    Every entry is in its place unless a later one overlaps it, and every undisturbed backup holds what its
    old range held when the run started, unless the device was erased as a whole.
   */
  ghost predicate Applied(header: Header, entries: seq<Entry>, m0: Media, m: Media, image: seq<Cell>) {
    && PlacedBefore(entries, |entries|, m, image)
    && forall k :: 0 <= k < |entries| && entries[k].Remap? && entries[k].enabled &&
                   Undisturbed(entries, k, m.nandErase) && !Wiped(header, entries[k].dev) ==>
         BackedUp(entries[k], m0, m)
  }

  lemma RunIsConfined(header: Header, entries: seq<Entry>, m0: Media, m1: Media, m: Media, f: ChipFaults)
    requires ChipsErased(header, m0, m1, f) && Confined(entries, m1, m)
    ensures RunConfined(header, entries, m0, m) && ChipsBlank(header, entries, m, f)
  {
    hide Reaches, HasBlock, Blank;
    forall i | 0 <= i < |m.nor| && !CellReached(entries, i, m) ensures m.nor[i] == m1.nor[i] {
      SameCells(entries, i, m1, m);
    }
    if !header.eraseNor {
      forall i | 0 <= i < |m.nor| && !CellReached(entries, i, m0) ensures m.nor[i] == m0.nor[i] {
        SameCells(entries, i, m0, m1);
      }
    }
  }

  /** A backup of a device that was not erased is one of what the run started with. */
  lemma BackupOfStart(header: Header, e: Entry, m0: Media, m1: Media, m: Media, f: ChipFaults)
    requires e.Remap? && ChipsErased(header, m0, m1, f) && BackedUp(e, m1, m) && !Wiped(header, e.dev)
    ensures BackedUp(e, m0, m)
  {
    hide Nand.GoodBytes, Nand.Holds;
  }

  lemma RunApplied(header: Header, entries: seq<Entry>, m0: Media, m1: Media, m: Media, image: seq<Cell>,
                   f: ChipFaults)
    requires ChipsErased(header, m0, m1, f) && BackedUpBefore(entries, |entries|, m1, m)
    requires PlacedBefore(entries, |entries|, m, image)
    ensures Applied(header, entries, m0, m, image)
  {
    hide BackedUp, Undisturbed, ChipsErased, PlacedBefore, Wiped;
    forall k | 0 <= k < |entries| && entries[k].Remap? && entries[k].enabled &&
               Undisturbed(entries, k, m.nandErase) && !Wiped(header, entries[k].dev)
      ensures BackedUp(entries[k], m0, m)
    {
      BackupOfStart(header, entries[k], m0, m1, m, f);
    }
  }

  /** What the run leaves in the flag, the version and the log, persistent memory working. */
  ghost predicate FlagSafe(log: seq<Event>, doing0: bool, doing: bool, entries: seq<Entry>) {
    Safe(log, doing0, entries) && doing == DoingAfter(log, doing0)
  }

  /** After success the flag is cleared and then the version stored, if persistent memory is not marked invalid. */
  method Commit(board: Board, header: Header, rc: int, ghost live: bool, ghost doing: bool, ghost entries: seq<Entry>)
    requires live ==>
               && board.memory.works && Underway(board.log, doing, entries) && board.memory.Doing()
               && (board.memory.valid <==> !header.ignoreVersionUpdate)
    requires rc == 0 ==> AllFinished(board.log, entries)
    modifies board.memory`node, board`log
    ensures live ==>
              && FlagSafe(board.log, doing, board.memory.Doing(), entries)
              && board.memory.node.Some? && board.memory.Doing() == (rc != 0 || header.ignoreVersionUpdate)
              && board.memory.node.value.version
                 == if rc == 0 && !header.ignoreVersionUpdate then header.version
                     else old(board.memory.node).value.version
    ensures old(board.log) <= board.log && (Flash in board.log <==> Flash in old(board.log))
    ensures AnyFailed(board.log) <==> AnyFailed(old(board.log))
    ensures FailuresNamed(old(board.log), entries) ==> FailuresNamed(board.log, entries)
    ensures (header.ignoreVersionUpdate || rc != 0) && !VersionStored(old(board.log)) ==> !VersionStored(board.log)
    ensures rc == 0 ==> AllFinished(board.log, entries)
  {
    hide Underway, Safe, DoingAfter, AnyFailed, FailuresNamed;
    if live {
      StillDoing(board.log, doing, entries);
    }
    if rc == 0 {
      if live {
        Ends(board.log, header.version, doing, entries);
      }
      board.SetDoing(false);
      if !header.ignoreVersionUpdate {
        board.SetVersion(header.version);
      }
      assert forall ev :: ev in old(board.log) ==> ev in board.log;
      SameFailures(old(board.log), board.log, entries);
    }
  }

  /**
    The header is read and checked, which takes a buffer.  With readable system data an equal version is
    refused, and nothing else is for its version.
   */
  method MayUpgrade(board: Board, iob: Buffer, header: Header, doCheck: bool, outOfMemory: bool, crcOk: bool)
    returns (rc: int)
    requires iob.Valid()
    modifies iob`len, iob`pos, iob`offset, iob.buf
    ensures iob.Valid()
    ensures || rc == 0 || rc == ERR_LOADFOTA || rc == -ENOMEM
            || rc == ERR_HEADER_CRC || rc == ERR_VERSION || rc == ERR_DECOMPRESS
    ensures rc == ERR_LOADFOTA <==> iob.kind == Missing || |iob.image| < HEADER_SIZE
    ensures rc == -ENOMEM <==> rc != ERR_LOADFOTA && doCheck && outOfMemory
    ensures rc == ERR_HEADER_CRC <==> rc != ERR_LOADFOTA && doCheck && !outOfMemory && !crcOk
    ensures rc == ERR_VERSION ==> board.memory.node.Some? && board.memory.node.value.version == header.version
    ensures board.memory.Readable() && board.memory.node.value.version == header.version ==>
              rc == ERR_LOADFOTA || rc == -ENOMEM || rc == ERR_HEADER_CRC || rc == ERR_VERSION
    ensures rc == 0 ==> !header.compressed
    ensures rc == ERR_DECOMPRESS ==> header.compressed
  {
    var bytes := iob.Read(HEADER_SIZE, 0);
    if |bytes| != HEADER_SIZE {
      return ERR_LOADFOTA;
    }
    if doCheck {
      if outOfMemory {
        return -ENOMEM;
      }
      if !crcOk {
        return ERR_HEADER_CRC;
      }
      var v := board.memory.StoredVersion();
      if v == Some(header.version) {
        return ERR_VERSION;
      }
    }
    var v := board.memory.StoredVersion();
    if v == Some(header.version) {
      return ERR_VERSION;
    }
    rc := if header.compressed then ERR_DECOMPRESS else 0;
  }

  /**
    What a run with working persistent memory leaves there: the flag cleared exactly after success, unless the
    version is not to be updated; the new version after success, else the old one.
   */
  ghost predicate Settled(header: Header, rc: int, node0: Option<Sysdata>, node: Option<Sysdata>) {
    && node.Some? && node.value.doing == (rc != 0 || header.ignoreVersionUpdate)
    && (rc == 0 && !header.ignoreVersionUpdate ==> node.value.version == header.version)
    && ((rc != 0 || header.ignoreVersionUpdate) && node0.Some? ==> node.value.version == node0.value.version)
  }

  lemma NoFailureYet(log: seq<Event>, entries: seq<Entry>)
    ensures (forall k :: 0 <= k < |log| ==> !log[k].Failed?) ==> !AnyFailed(log) && FailuresNamed(log, entries)
    ensures (forall k :: 0 <= k < |log| ==> !log[k].Version?) ==> !VersionStored(log)
  {
  }

  lemma FailedSince(log0: seq<Event>, log: seq<Event>, failed: bool)
    requires Counted(log0, log, failed) && !AnyFailed(log0)
    ensures AnyFailed(log) <==> failed
  {
    assert log == log0 + log[|log0|..];
    if AnyFailed(log) {
      var k :| 0 <= k < |log| && log[k].Failed?;
      assert k >= |log0| && log[|log0|..][k - |log0|].Failed?;
    }
    if failed {
      var k :| 0 <= k < |log[|log0|..]| && log[|log0|..][k].Failed?;
      assert log[|log0| + k].Failed?;
    }
  }

  lemma IsRunToEnd(header: Header, entries: seq<Entry>, log: seq<Event>, m0: Media, m1: Media, m: Media,
                   f: ChipFaults)
    requires ChipsErased(header, m0, m1, f)
    requires (OutcomesBefore(log, entries, |entries|, true) && OutcomesBefore(log, entries, |entries|, false))
             || m == m1
    ensures RunToEnd(header, entries, log, m0, m, f)
  {
  }

  /** The same with `m1` left out: what the entries have done to what the run started with. */
  method RunEntries(board: Board, iob: Buffer, header: Header, entries: seq<Entry>, ghost doing: bool)
    returns (rc: int)
    requires board.Valid() && iob.Valid() && AllAdmissible(entries, board.Contents(), iob.image)
    modifies board`log, board.nor, board.nand, iob`len, iob`pos, iob`offset, iob.buf
    ensures board.Valid() && iob.Valid() && board.nor.clean == old(board.nor.clean)
    ensures Stepped(old(board.log), board.log, old(board.Contents()), board.Contents(), doing, entries)
    ensures rc == 0 || rc == ERR_UPGRADE
    ensures Counted(old(board.log), board.log, rc != 0)
    ensures ChipsBlank(header, entries, board.Contents(), old(FaultsOf(board)))
    ensures RunToEnd(header, entries, board.log, old(board.Contents()), board.Contents(), old(FaultsOf(board)))
    ensures old(board.FaultFree()) && NoEmmc(entries) && iob.kind != Missing ==>
              (rc == 0 <==> AllFit(entries, old(board.Contents()), iob))
    ensures RunConfined(header, entries, old(board.Contents()), board.Contents())
    ensures rc == 0 ==>
              && AllFinished(board.log, entries)
              && Applied(header, entries, old(board.Contents()), board.Contents(), iob.image)
  {
    hide Stepped, Counted, ChipsErased, ChipsBlank, RunToEnd, RunConfined, Applied, AllFinished, PlacedBefore, Confined;
    hide BackedUpBefore, OutcomesBefore, NoEmmc, AllFit, AllAdmissible, NorWriter.PowerOfTwo, Buffer.Valid;
    ghost var m0, f := board.Contents(), FaultsOf(board);
    ghost var m1;
    rc, m1 := Apply(board, iob, header, entries, doing);
    RunIsConfined(header, entries, m0, m1, board.Contents(), f);
    IsRunToEnd(header, entries, board.log, m0, m1, board.Contents(), f);
    if rc == 0 {
      RunApplied(header, entries, m0, m1, board.Contents(), iob.image, f);
    }
  }

  /** Storing the flag and the version takes no outcome back. */
  lemma EndStays(header: Header, entries: seq<Entry>, log: seq<Event>, log': seq<Event>, m0: Media, m: Media,
                 f: ChipFaults)
    requires RunToEnd(header, entries, log, m0, m, f) && log <= log'
    ensures RunToEnd(header, entries, log', m0, m, f)
  {
    hide OutcomesBefore;
    if OutcomesBefore(log, entries, |entries|, true) && OutcomesBefore(log, entries, |entries|, false) {
      OutcomesStay(log, log', entries, |entries|, true);
      OutcomesStay(log, log', entries, |entries|, false);
    }
  }

  /** Sets the flag, and marks persistent memory invalid when the version is not to be updated. */
  method Begin(board: Board, header: Header, ghost live: bool, ghost doing: bool, ghost entries: seq<Entry>)
    requires board.log == [] && live == (board.memory.works && board.memory.valid)
    modifies board.memory, board`log
    ensures live ==>
              && board.memory.works && Underway(board.log, doing, entries) && board.memory.Doing() && board.log != []
              && (board.memory.valid <==> !header.ignoreVersionUpdate) && board.memory.node.Some?
              && (old(board.memory.node).Some? ==>
                    board.memory.node.value.version == old(board.memory.node).value.version)
    ensures !AnyFailed(board.log) && FailuresNamed(board.log, entries) && !VersionStored(board.log)
    ensures Flash !in board.log
  {
    hide Underway, AnyFailed, FailuresNamed, VersionStored;
    Starts(doing, entries);
    board.SetDoing(true);
    assert live ==> board.log == [Doing(true)];
    if header.ignoreVersionUpdate {
      if live {
        UnderwayNext(board.log, Invalidated, doing, entries);
      }
      board.MarkInvalid();
    }
    NoFailureYet(board.log, entries);
  }

  /** The run from setting the flag on. */
  method Run(board: Board, iob: Buffer, header: Header, entries: seq<Entry>) returns (rc: int)
    requires board.Valid() && iob.Valid() && board.log == []
    requires AllAdmissible(entries, board.Contents(), iob.image)
    modifies board.memory, board`log, board.nor, board.nand, iob`len, iob`pos, iob`offset, iob.buf
    ensures board.Valid() && iob.Valid() && board.nor.clean == old(board.nor.clean)
    ensures board.memory.works && old(board.memory.valid) ==>
              && FlagSafe(board.log, old(board.memory.Doing()), board.memory.Doing(), entries) && board.log != []
              && Settled(header, rc, old(board.memory.node), board.memory.node)
    ensures Flash !in board.log ==> board.Contents() == old(board.Contents())
    ensures rc == 0 || rc == ERR_UPGRADE
    ensures ChipsBlank(header, entries, board.Contents(), old(FaultsOf(board)))
    ensures RunToEnd(header, entries, board.log, old(board.Contents()), board.Contents(), old(FaultsOf(board)))
    ensures old(board.FaultFree()) && NoEmmc(entries) && iob.kind != Missing ==>
              (rc == 0 <==> AllFit(entries, old(board.Contents()), iob))
    ensures (AnyFailed(board.log) <==> rc == ERR_UPGRADE) && FailuresNamed(board.log, entries)
    ensures header.ignoreVersionUpdate || rc != 0 ==> !VersionStored(board.log)
    ensures RunConfined(header, entries, old(board.Contents()), board.Contents())
    ensures rc == 0 ==>
              && AllFinished(board.log, entries)
              && Applied(header, entries, old(board.Contents()), board.Contents(), iob.image)
  {
    hide Underway, Safe, DoingAfter, Admissible, Applied, AllFinished, NorWriter.PowerOfTwo, Buffer.Valid, Confined;
    hide ChipsErased, AnyFailed, RunConfined, PlacedBefore, BackedUpBefore, FailuresNamed, ChipsBlank, RunToEnd;
    hide VersionStored, OutcomesBefore, NoEmmc, AllFit, Board.FaultFree, FaultsOf, NotEmmc, AllAdmissible;
    ghost var m0 := board.Contents();
    ghost var doing, live := board.memory.Doing(), board.memory.works && board.memory.valid;
    Begin(board, header, live, doing, entries);
    ghost var log1 := board.log;
    rc := RunEntries(board, iob, header, entries, doing);
    FailedSince(log1, board.log, rc != 0);
    ghost var log2 := board.log;
    Commit(board, header, rc, live, doing, entries);
    EndStays(header, entries, log2, board.log, m0, board.Contents(), old(FaultsOf(board)));
  }

  lemma NothingYet(doing: bool, entries: seq<Entry>)
    ensures DoingAfter([], doing) == doing && Safe([], doing, entries) && !AnyFailed([]) && FailuresNamed([], entries)
  {
  }

  lemma NothingConfined(header: Header, entries: seq<Entry>, m: Media)
    ensures RunConfined(header, entries, m, m)
  {
  }

  /**
    `hcfota_internal`.  With working persistent memory, at every point of the run a cleared flag means that
    no flash has been changed or that every entry has finished, and the version is stored only after that;
    the flag ends up cleared exactly after success, unless the version is not to be updated: then persistent
    memory is marked invalid on the way and the flag stays.  A result of 0 means in addition that undisturbed
    backups are complete and the image parts in their places.  On every outcome nothing has changed out of
    the reach of the entries, except by erasing whole chips.
   */
  method Internal(board: Board, iob: Buffer, header: Header, entries: seq<Entry>, doCheck: bool, outOfMemory: bool,
                  crcOk: bool, checkOnly: bool)
    returns (rc: int)
    requires board.Valid() && iob.Valid() && board.log == []
    requires AllAdmissible(entries, board.Contents(), iob.image)
    modifies board.memory, board`log, board.nor, board.nand, iob`len, iob`pos, iob`offset, iob.buf
    ensures board.Valid() && iob.Valid() && board.nor.clean == old(board.nor.clean)
    ensures board.memory.works && old(board.memory.valid) ==>
              FlagSafe(board.log, old(board.memory.Doing()), board.memory.Doing(), entries)
    ensures board.memory.works && old(board.memory.valid) ==>
              if board.log == [] then board.memory.node == old(board.memory.node)
              else Settled(header, rc, old(board.memory.node), board.memory.node)
    ensures Flash !in board.log ==> board.Contents() == old(board.Contents())
    ensures board.memory.works && old(board.memory.valid) && !checkOnly && (rc == 0 || rc == ERR_UPGRADE) ==>
              board.log != []
    ensures (AnyFailed(board.log) <==> rc == ERR_UPGRADE) && FailuresNamed(board.log, entries)
    ensures header.ignoreVersionUpdate || rc != 0 ==> !VersionStored(board.log)
    ensures || rc == 0 || rc == ERR_UPGRADE || rc == ERR_LOADFOTA || rc == ERR_VERSION
            || rc == -ENOMEM || rc == ERR_HEADER_CRC || rc == ERR_DECOMPRESS
    ensures iob.kind == Missing || |iob.image| < HEADER_SIZE ==> rc == ERR_LOADFOTA
    ensures rc == ERR_LOADFOTA ==>
              iob.kind == Missing || |iob.image| < HEADER_SIZE + (if checkOnly then 0 else PAYLOAD_HEADER_SIZE)
    ensures rc == 0 || rc == ERR_UPGRADE ==>
              |iob.image| >= HEADER_SIZE + if checkOnly then 0 else PAYLOAD_HEADER_SIZE
    ensures rc == -ENOMEM <==> rc != ERR_LOADFOTA && doCheck && outOfMemory
    ensures rc == ERR_HEADER_CRC <==> rc != ERR_LOADFOTA && doCheck && !outOfMemory && !crcOk
    ensures rc == ERR_VERSION ==> old(board.memory.node).Some? && old(board.memory.node).value.version == header.version
    ensures rc == ERR_DECOMPRESS ==> header.compressed
    ensures checkOnly ==> board.log == [] && board.memory.node == old(board.memory.node)
    ensures rc == 0 || rc == ERR_UPGRADE ==> !header.compressed && (doCheck ==> crcOk)
    ensures RunConfined(header, entries, old(board.Contents()), board.Contents())
    ensures (rc == 0 && !checkOnly) || rc == ERR_UPGRADE ==>
              && ChipsBlank(header, entries, board.Contents(), old(FaultsOf(board)))
              && RunToEnd(header, entries, board.log, old(board.Contents()), board.Contents(), old(FaultsOf(board)))
              && (old(board.FaultFree()) && NoEmmc(entries) ==>
                    (rc == 0 <==> AllFit(entries, old(board.Contents()), iob)))
    ensures rc == 0 && !checkOnly ==>
              && AllFinished(board.log, entries)
              && Applied(header, entries, old(board.Contents()), board.Contents(), iob.image)
  {
    hide Safe, DoingAfter, Admissible, Applied, AllFinished, NorWriter.PowerOfTwo, Buffer.Valid, Confined, Settled;
    hide RunConfined, ChipsBlank, RunToEnd, NoEmmc, AllFit;
    NothingRun(entries, board.Contents());
    NothingConfined(header, entries, board.Contents());
    NothingYet(board.memory.Doing(), entries);
    rc := MayUpgrade(board, iob, header, doCheck, outOfMemory, crcOk);
    if rc != 0 || checkOnly {
      return;
    }
    var bytes := iob.Read(PAYLOAD_HEADER_SIZE, HEADER_SIZE);
    if |bytes| != PAYLOAD_HEADER_SIZE {
      rc := ERR_LOADFOTA;
      return;
    }
    rc := Run(board, iob, header, entries);
  }

  /**
    A run that succeeds and leaves the flag set: nothing stored so far, no entries, a version that is not to
    be updated.
   */
  method FlagStays() returns (board: Board, rc: int)
    ensures rc == 0 && board.memory.works && board.memory.Doing()
  {
    hide Safe, DoingAfter, Applied, RunConfined, AllFinished, Confined;
    var nor := new Device([], 1, 1, Stuck({}));
    var nand := new Nand.Chip([[0]], [false], {}, 1, Stuck({}));
    var memory := new PersistentMemory(true, None);
    board := new Board(nor, nand, memory, true);
    var iob := new Buffer(Memory, Blank(HEADER_SIZE + PAYLOAD_HEADER_SIZE), 0x1000);
    rc := Internal(board, iob, Header(1, false, true, false, false), [], false, false, true, false);
  }
}
