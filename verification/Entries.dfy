/**
  The entries of an upgrade image and what they mean for the flash devices: ranges, what a range holds
  once an entry has been run, and which ranges do not disturb each other.
 */
module Entries {
  import opened Cells
  import opened IoBuffer
  import opened NorErase
  import opened NorFlash
  import Nand
  import NorWriter

  /** sizeof(struct hcfota_header) and sizeof(struct hcfota_payload_header) */
  const HEADER_SIZE := 64
  const PAYLOAD_HEADER_SIZE := 1024

  datatype DevType = SpiNor | AnyNand | Emmc | Unsupported

  /** An entry of the payload header; its device range and, for a normal entry, the image part that goes there. */
  datatype Entry =
    | Normal(enabled: bool, dev: DevType, offset: nat, room: nat, payload: nat, length: nat)
    | Remap(enabled: bool, oldDev: DevType, oldOffset: nat, oldLength: nat, dev: DevType, offset: nat, room: nat)
    | OtherType(enabled: bool, dev: DevType, offset: nat, room: nat)

  /** What an upgrade can change, and the erase sizes of the two devices. */
  datatype Storage = Storage(nor: seq<Cell>, norErase: nat, blocks: seq<seq<Cell>>, bad: seq<bool>, nandErase: nat)

  type Media = m: Storage | |m.blocks| == |m.bad| && 0 < m.nandErase && NorWriter.PowerOfTwo(m.norErase)
    witness Storage([], 1, [], [], 1)

  // ---- ranges

  datatype Range = Range(dev: DevType, offset: nat, room: nat)

  function Target(e: Entry): Range {
    Range(e.dev, e.offset, e.room)
  }

  function Source(e: Entry): Range
    requires e.Remap?
  {
    Range(e.oldDev, e.oldOffset, e.oldLength)
  }

  /** The NOR cells of a range. */
  predicate HasCell(r: Range, i: int) {
    r.dev.SpiNor? && r.offset <= i < r.offset + r.room
  }

  /** The NAND blocks of a range, for erase blocks of `es` bytes. */
  predicate HasBlock(r: Range, b: int, es: nat)
    requires 0 < es
  {
    r.dev.AnyNand? && r.offset / es <= b < r.offset / es + r.room / es
  }

  /** The NOR cells that writing to a range may touch, also when it fails. */
  predicate Reaches(r: Range, i: int, m: Media) {
    r.dev.SpiNor? &&
    RoundDown(r.offset, m.norErase)
    <= i < NorWriter.Reach(NorWriter.Job(r.offset, r.room, [], 0, 0), m.norErase,
                           NorWriter.BufferBytes(m.norErase, false), |m.nor|)
  }

  ghost predicate SameSize(m0: Media, m: Media) {
    && |m.nor| == |m0.nor| && |m.blocks| == |m0.blocks|
    && m.norErase == m0.norErase && m.nandErase == m0.nandErase
  }

  ghost predicate SameBlock(m0: Media, m: Media, b: nat)
    requires SameSize(m0, m) && b < |m.blocks|
  {
    m.blocks[b] == m0.blocks[b] && m.bad[b] == m0.bad[b]
  }

  /** Only the range has changed. */
  ghost predicate OnlyIn(r: Range, m0: Media, m: Media) {
    && SameSize(m0, m)
    && (forall i :: 0 <= i < |m.nor| && !HasCell(r, i) ==> m.nor[i] == m0.nor[i])
    && (forall b :: 0 <= b < |m.blocks| && !HasBlock(r, b, m.nandErase) ==> SameBlock(m0, m, b))
  }

  /** Only what writing to the range may touch has changed. */
  ghost predicate OnlyReached(r: Range, m0: Media, m: Media) {
    && SameSize(m0, m)
    && (forall i :: 0 <= i < |m.nor| && !Reaches(r, i, m0) ==> m.nor[i] == m0.nor[i])
    && (forall b :: 0 <= b < |m.blocks| && !HasBlock(r, b, m.nandErase) ==> SameBlock(m0, m, b))
  }

  /** The range has not changed. */
  ghost predicate SameRange(r: Range, m0: Media, m: Media) {
    && SameSize(m0, m)
    && (forall i :: 0 <= i < |m.nor| && HasCell(r, i) ==> m.nor[i] == m0.nor[i])
    && (forall b :: 0 <= b < |m.blocks| && HasBlock(r, b, m.nandErase) ==> SameBlock(m0, m, b))
  }

  /** Two ranges do not share a cell or a block. */
  ghost predicate Apart(r: Range, f: Range, es: nat)
    requires 0 < es
  {
    && (forall i :: HasCell(r, i) ==> !HasCell(f, i))
    && (forall b :: HasBlock(r, b, es) ==> !HasBlock(f, b, es))
  }

  lemma ApartSame(r: Range, f: Range, m0: Media, m: Media)
    requires OnlyIn(f, m0, m) && Apart(r, f, m.nandErase)
    ensures SameRange(r, m0, m)
  {
  }

  lemma SameRangeTrans(r: Range, m0: Media, m1: Media, m: Media)
    requires SameRange(r, m0, m1) && SameRange(r, m1, m)
    ensures SameRange(r, m0, m)
  {
  }

  // ---- what the writers leave behind

  /** Where a normal entry's bytes start in the image. */
  function From(e: Entry): nat
    requires e.Normal?
  {
    e.payload + HEADER_SIZE + PAYLOAD_HEADER_SIZE
  }

  /** The blocks of a range exist. */
  predicate HasBlocks(r: Range, m: Media) {
    r.offset / m.nandErase + r.room / m.nandErase <= |m.blocks|
  }

  /** What the good blocks of a range hold. */
  function Held(r: Range, m: Media): seq<Cell>
    requires HasBlocks(r, m)
  {
    Nand.GoodBytes(m.blocks, m.bad, r.offset / m.nandErase, r.room / m.nandErase)
  }

  /** The entry's part of what follows the two headers stands in its range. */
  ghost predicate PartInPlace(e: Entry, m: Media, body: seq<Cell>)
    requires e.Normal?
  {
    match e.dev
    case SpiNor =>
      && e.length <= e.room && e.payload + e.length <= |body|
      && Shows(m.nor, e.offset, body[e.payload..e.payload + e.length])
    case AnyNand => HasBlocks(Target(e), m) && Nand.Holds(Held(Target(e), m), body, e.payload, e.length)
    case _ => true
  }

  /** The image part stands in the entry's range. */
  ghost predicate Stored(e: Entry, m: Media, image: seq<Cell>)
    requires e.Normal?
  {
    |image| >= 64 + 1024 && PartInPlace(e, m, image[64 + 1024..])
  }

  /** In an image of a header of 64 bytes, a payload header of 1024 and a body, parts are parts of the body. */
  lemma PartOfBody(e: Entry, m: Media, h: seq<Cell>, ph: seq<Cell>, body: seq<Cell>)
    requires e.Normal? && |h| == 64 && |ph| == 1024 && Stored(e, m, h + ph + body)
    ensures e.dev.SpiNor? ==>
              && e.payload + e.length <= |body| && e.offset + e.length <= |m.nor|
              && m.nor[e.offset..e.offset + e.length] == body[e.payload..e.payload + e.length]
    ensures e.dev.AnyNand? ==>
              && HasBlocks(Target(e), m) && e.payload + e.length <= |body| && e.length <= |Held(Target(e), m)|
              && Held(Target(e), m)[..e.length] == body[e.payload..e.payload + e.length]
              && IsBlank(Held(Target(e), m)[e.length..])
  {
    hide Nand.GoodBytes;
    assert (h + ph + body)[64 + 1024..] == body;
  }

  lemma PartAt(e: Entry, image: seq<Cell>, n: nat)
    requires e.Normal? && From(e) + n <= |image|
    ensures image[64 + 1024..][e.payload..e.payload + n] == image[From(e)..From(e) + n]
  {
  }

  /** What the NAND writer leaves. */
  lemma HoldsPart(e: Entry, g: seq<Cell>, image: seq<Cell>)
    requires e.Normal? && From(e) <= |image|
    ensures Nand.Holds(g, image, From(e), e.length) <==> Nand.Holds(g, image[64 + 1024..], e.payload, e.length)
  {
    if From(e) + e.length <= |image| {
      PartAt(e, image, e.length);
    }
  }

  /** There are bytes to store, and no good block for them. */
  ghost predicate Lost(e: Entry, m: Media)
    requires e.Normal?
  {
    e.dev.AnyNand? && e.length > 0 && HasBlocks(Target(e), m) && Held(Target(e), m) == []
  }

  lemma LostIsNotStored(e: Entry, m: Media, image: seq<Cell>)
    requires e.Normal? && Lost(e, m)
    ensures !Stored(e, m, image)
  {
  }

  lemma HeldSame(r: Range, m0: Media, m: Media)
    requires r.dev.AnyNand? && SameRange(r, m0, m) && HasBlocks(r, m0)
    ensures HasBlocks(r, m) && Held(r, m) == Held(r, m0)
  {
    hide Nand.GoodBytes;
    var first, n := r.offset / m.nandErase, r.room / m.nandErase;
    forall b | first <= b < first + n ensures m.bad[b] == m0.bad[b] && m.blocks[b] == m0.blocks[b] {
      assert HasBlock(r, b, m.nandErase) && SameBlock(m0, m, b);
    }
    Nand.GoodBytesSame(m0.blocks, m0.bad, m.blocks, m.bad, first, n);
  }

  /** An entry that is in its place, or has lost its blocks, stays so while its range does not change. */
  lemma StoredKept(e: Entry, m0: Media, m: Media, image: seq<Cell>)
    requires e.Normal? && SameRange(Target(e), m0, m)
    ensures Stored(e, m0, image) ==> Stored(e, m, image)
    ensures Lost(e, m0) ==> Lost(e, m)
  {
    hide Nand.GoodBytes, Nand.Holds;
    if e.dev.SpiNor? {
      assert forall i :: e.offset <= i < e.offset + e.room ==> HasCell(Target(e), i);
    } else if e.dev.AnyNand? && HasBlocks(Target(e), m0) {
      HeldSame(Target(e), m0, m);
    }
  }

  /** The new range holds what the old range held in `m0`. */
  ghost predicate BackedUp(e: Entry, m0: Media, m: Media)
    requires e.Remap?
  {
    match e.dev
    case SpiNor =>
      && e.oldLength <= e.room && e.oldOffset + e.oldLength <= |m0.nor| && e.offset + e.oldLength <= |m.nor|
      && m.nor[e.offset..e.offset + e.oldLength] == m0.nor[e.oldOffset..e.oldOffset + e.oldLength]
    case AnyNand =>
      && HasBlocks(Source(e), m0) && HasBlocks(Target(e), m)
      && var g0 := Held(Source(e), m0);
         Nand.Holds(Held(Target(e), m), g0, 0, |g0|)
    case _ => true
  }

  lemma BackedUpKept(e: Entry, m0: Media, m1: Media, m: Media)
    requires e.Remap? && BackedUp(e, m0, m1) && SameRange(Target(e), m1, m)
    ensures BackedUp(e, m0, m)
  {
    hide Nand.GoodBytes, Nand.Holds;
    if e.dev.SpiNor? {
      assert forall i :: e.offset <= i < e.offset + e.room ==> HasCell(Target(e), i);
    } else if e.dev.AnyNand? {
      HeldSame(Target(e), m1, m);
    }
  }

  lemma SourceKept(e: Entry, m0: Media, m1: Media, m: Media)
    requires e.Remap? && e.oldDev == e.dev && BackedUp(e, m1, m) && SameRange(Source(e), m0, m1)
    requires e.dev.AnyNand? ==> HasBlocks(Source(e), m0)
    ensures BackedUp(e, m0, m)
  {
    hide Nand.GoodBytes, Nand.Holds;
    if e.dev.SpiNor? {
      assert forall i :: e.oldOffset <= i < e.oldOffset + e.oldLength ==> HasCell(Source(e), i);
    } else if e.dev.AnyNand? {
      HeldSame(Source(e), m0, m1);
    }
  }

  // ---- the check before an upgrade

  /** The room for data in a range: its size, or its good blocks if it is made of whole blocks. */
  function Room(r: Range, m: Media): nat {
    match r.dev
    case SpiNor => r.room
    case AnyNand =>
      if Multiple(r.offset, m.nandErase) && Multiple(r.room, m.nandErase) && HasBlocks(r, m) then |Held(r, m)| else 0
    case _ => 0
  }

  /** The range lies inside its device. */
  predicate Inside(r: Range, m: Media) {
    && (r.dev.SpiNor? ==> r.offset + r.room <= |m.nor|)
    && (r.dev.AnyNand? ==> r.offset + r.room <= |m.blocks| * m.nandErase)
  }

  predicate WholeBlocks(r: Range, m: Media) {
    r.dev.AnyNand? ==> Multiple(r.offset, m.nandErase) && Multiple(r.room, m.nandErase)
  }

  /** What no check rules out: ranges inside their devices, an image part that starts inside the image. */
  predicate Admissible(e: Entry, m: Media, image: seq<Cell>) {
    match e
    case Normal(_, _, _, _, _, length) =>
      Inside(Target(e), m) && From(e) <= |image| && (length == 0 ==> WholeBlocks(Target(e), m))
    case Remap(_, oldDev, _, _, dev, _, _) =>
      && dev == oldDev && Inside(Source(e), m) && Inside(Target(e), m)
      && WholeBlocks(Source(e), m) && WholeBlocks(Target(e), m)
    case OtherType(_, _, _, _) => true
  }

  /** What the check leaves: room in NOR flash, and whole blocks in NAND. */
  predicate Checked(e: Entry, m: Media, image: seq<Cell>) {
    && Admissible(e, m, image) && !e.OtherType?
    && (e.Normal? ==> WholeBlocks(Target(e), m) && (e.dev.SpiNor? ==> e.length <= e.room))
  }

  lemma PassedIsChecked(e: Entry, m: Media, image: seq<Cell>)
    requires e.enabled ==> Admissible(e, m, image) && !e.OtherType?
    requires e.enabled && e.Normal? && !e.dev.Emmc? ==> e.length <= Room(Target(e), m)
    ensures e.enabled ==> Checked(e, m, image)
  {
  }
}
