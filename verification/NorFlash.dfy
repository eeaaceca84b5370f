/**
  A NOR flash as the MTD layer shows it: programming only clears bits, erasing works on whole erase
  blocks, and every operation may fail.  `clean` records that no cell was ever programmed unless it
  was erased.
 */
module NorFlash {
  import opened Cells
  import opened Division
  import opened Slices

  /** `a` is a whole number of blocks of size `b`. */
  predicate Multiple(a: int, b: int) {
    0 <= a && 0 < b && a % b == 0
  }

  lemma MultipleTrans(a: int, b: int, c: int)
    requires Multiple(a, b) && Multiple(b, c)
    ensures Multiple(a, c)
  {
    var q, r := a / b, b / c;
    assert a == b * q && b == c * r;
    assert a == (q * r) * c;
    DivisionUnique(a, c, q * r, 0);
  }

  lemma MultipleSum(a: int, b: int, c: int)
    requires Multiple(a, c) && Multiple(b, c)
    ensures Multiple(a + b, c) && (a + b) / c == a / c + b / c
    ensures a >= b ==> Multiple(a - b, c)
  {
    var q, r := a / c, b / c;
    assert a == q * c && b == r * c;
    assert a + b == (q + r) * c;
    DivisionUnique(a + b, c, q + r, 0);
    if a >= b {
      assert a - b == (q - r) * c;
      DivisionUnique(a - b, c, q - r, 0);
    }
  }

  /** The erase block of an address inside the device lies inside the device. */
  lemma BlockOf(x: nat, e: nat, size: nat)
    requires Multiple(size, e) && x < size
    ensures x % e <= x && Multiple(x - x % e, e) && x - x % e + e <= size
    ensures Multiple(x - x % e + e, e) && Multiple(e, e)
  {
    var q := x / e;
    assert x - x % e == q * e;
    DivisionUnique(x - x % e, e, q, 0);
    DivisionUnique(e, e, 1, 0);
    MultipleSum(x - x % e, e, e);
    var n := size / e;
    assert size == n * e;
    if n < q {
      LessTimes(n, q, e);
    }
    LessTimes(q, n, e);
  }

  /** Programming an erased cell stores exactly what is programmed. */
  lemma AndErased(b: Cell)
    ensures ERASED & b == b
  {
  }

  /**
    What can go wrong: anything, at any operation and with any contents left behind; or only programming
    a range that meets certain cells, which then stores nothing.
   */
  datatype Faults = Anything | Stuck(cells: set<nat>)

  /** No operation on `[lo, hi)` fails. */
  predicate Sound(f: Faults, lo: nat, hi: nat) {
    f.Stuck? && forall s :: s in f.cells ==> s < lo || hi <= s
  }

  class Device {
    const eraseSize: nat
    const writeSize: nat
    const faults: Faults
    var data: seq<Cell>
    ghost var clean: bool

    ghost predicate Valid()
      reads this
    {
      Multiple(eraseSize, writeSize) && Multiple(|data|, eraseSize)
    }

    constructor (data: seq<Cell>, eraseSize: nat, writeSize: nat, faults: Faults)
      requires Multiple(eraseSize, writeSize) && Multiple(|data|, eraseSize)
      ensures Valid() && clean && this.data == data && this.eraseSize == eraseSize && this.writeSize == writeSize
      ensures this.faults == faults
    {
      this.data, this.eraseSize, this.writeSize, this.faults := data, eraseSize, writeSize, faults;
      clean := true;
    }

    /** The right answer, or after a fault any answer. */
    method Answer(right: int, sound: bool) returns (rc: int)
      ensures faults.Stuck? ==> (rc == right <==> sound)
    {
      rc := if sound then right else right - 1;
      if faults.Anything? {
        rc := *;
      }
    }

    /** MTD_BREAD: `n` pages from page `start` on; anything else than `n` is an error. */
    method Bread(start: nat, n: nat) returns (rc: int, bytes: seq<Cell>)
      requires Valid() && start * writeSize + n * writeSize <= |data|
      ensures |bytes| == n * writeSize && (faults.Stuck? ==> rc == n)
      ensures rc == n ==> forall i :: start * writeSize <= i < start * writeSize + n * writeSize ==>
                data[i] == bytes[i - start * writeSize]
    {
      bytes := data[start * writeSize..start * writeSize + n * writeSize];
      rc := Answer(n, true);
      if rc != n {
        bytes := Unknown(n * writeSize);
      }
    }

    /** MTD_READ: `n` bytes at any address; anything else than `n` is an error. */
    method Read(at: nat, n: nat) returns (rc: int, bytes: seq<Cell>)
      requires Valid() && at + n <= |data|
      ensures |bytes| == n && (rc == n ==> bytes == data[at..at + n]) && (faults.Stuck? ==> rc == n)
    {
      bytes := data[at..at + n];
      rc := Answer(n, true);
      if rc != n {
        bytes := Unknown(n);
      }
    }

    /** MTD_ERASE: `n` erase blocks from block `start` on; anything else than 0 is an error. */
    method Erase(start: nat, n: nat) returns (rc: int)
      requires Valid() && start * eraseSize + n * eraseSize <= |data|
      modifies this
      ensures Valid() && clean == old(clean) && (faults.Stuck? ==> rc == 0)
      ensures KeptOutside(old(data), data, start * eraseSize, start * eraseSize + n * eraseSize)
      ensures rc == 0 ==> forall i :: 0 <= i < |data| ==>
                data[i] == if start * eraseSize <= i < start * eraseSize + n * eraseSize then ERASED else old(data)[i]
    {
      rc := Answer(0, true);
      var at, len := start * eraseSize, n * eraseSize;
      var blank := Blank(len);
      if rc != 0 {
        blank := Unknown(len);
      }
      SpliceKept(data, at, blank);
      SpliceElements(data, at, blank);
      data := Splice(data, at, blank);
    }

    /** MTD_WRITE: programs bytes at any address; anything else than their number is an error. */
    method Write(at: nat, bytes: seq<Cell>) returns (rc: int)
      requires Valid() && at + |bytes| <= |data|
      modifies this
      ensures Valid() && KeptOutside(old(data), data, at, at + |bytes|)
      ensures clean == (old(clean) && IsBlank(old(data)[at..at + |bytes|]))
      ensures rc == |bytes| ==> forall i :: 0 <= i < |data| ==>
                data[i] == if at <= i < at + |bytes| then old(data)[i] & bytes[i - at] else old(data)[i]
      ensures faults.Stuck? ==> (rc == |bytes| <==> Sound(faults, at, at + |bytes|))
      ensures faults.Stuck? && rc != |bytes| ==> data == old(data)
    {
      rc := Answer(|bytes|, Sound(faults, at, at + |bytes|));
      clean := clean && IsBlank(data[at..at + |bytes|]);
      var cells := And(data[at..at + |bytes|], bytes);
      if rc != |bytes| {
        cells := Unknown(|bytes|);
        if faults.Stuck? {
          NothingChanged(data, at, at + |bytes|);
          return;
        }
      }
      SpliceKept(data, at, cells);
      Programmed(data, at, bytes);
      hide And, Splice, KeptOutside;
      data := Splice(data, at, cells);
    }

    /** MTD_BWRITE: programs `n` pages from page `start` on; anything else than `n` is an error. */
    method Bwrite(start: nat, n: nat, bytes: seq<Cell>) returns (rc: int)
      requires Valid() && start * writeSize + |bytes| <= |data| && |bytes| == n * writeSize
      modifies this
      ensures Valid() && KeptOutside(old(data), data, start * writeSize, start * writeSize + |bytes|)
      ensures clean == (old(clean) && IsBlank(old(data)[start * writeSize..start * writeSize + |bytes|]))
      ensures rc == n ==> forall i :: 0 <= i < |data| ==>
                data[i] == if start * writeSize <= i < start * writeSize + |bytes|
                           then old(data)[i] & bytes[i - start * writeSize] else old(data)[i]
      ensures Sound(faults, start * writeSize, start * writeSize + |bytes|) ==> rc == n
    {
      rc := Write(start * writeSize, bytes);
      rc := if rc == |bytes| then n else -1;
    }

    // ---- the same operations at byte addresses that are whole pages or whole blocks

    method ReadAt(at: nat, len: nat) returns (ok: bool, bytes: seq<Cell>)
      requires Valid() && Multiple(at, writeSize) && Multiple(len, writeSize) && at + len <= |data|
      ensures |bytes| == len && (faults.Stuck? ==> ok)
      ensures ok ==> Shows(data, at, bytes)
    {
      var start, n := at / writeSize, len / writeSize;
      assert start * writeSize == at && n * writeSize == len;
      var rc;
      rc, bytes := Bread(start, n);
      ok := rc == n;
    }

    method EraseAt(at: nat, len: nat) returns (ok: bool)
      requires Valid() && Multiple(at, eraseSize) && Multiple(len, eraseSize) && at + len <= |data|
      modifies this
      ensures Valid() && clean == old(clean) && KeptOutside(old(data), data, at, at + len)
      ensures faults.Stuck? ==> ok
      ensures ok ==> forall i :: 0 <= i < |data| ==> data[i] == if at <= i < at + len then ERASED else old(data)[i]
    {
      var start, n := at / eraseSize, len / eraseSize;
      assert start * eraseSize == at && n * eraseSize == len;
      var rc := Erase(start, n);
      ok := rc == 0;
    }

    /** Programs cells that are erased: they then hold exactly `bytes`. */
    method WriteErased(at: nat, bytes: seq<Cell>) returns (ok: bool)
      requires Valid() && at + |bytes| <= |data|
      requires forall i :: at <= i < at + |bytes| ==> data[i] == ERASED
      modifies this
      ensures Valid() && clean == old(clean) && KeptOutside(old(data), data, at, at + |bytes|)
      ensures faults.Stuck? ==> (ok <==> Sound(faults, at, at + |bytes|)) && (!ok ==> data == old(data))
      ensures ok ==> forall i :: 0 <= i < |data| ==>
        data[i] == if at <= i < at + |bytes| then bytes[i - at] else old(data)[i]
    {
      assert IsBlank(data[at..at + |bytes|]);
      var rc := Write(at, bytes);
      ok := rc == |bytes|;
      if ok {
        forall i | at <= i < at + |bytes| ensures data[i] == bytes[i - at] {
          AndErased(bytes[i - at]);
        }
      }
    }

    method WritePagesErased(at: nat, bytes: seq<Cell>) returns (ok: bool)
      requires Valid() && Multiple(at, writeSize) && Multiple(|bytes|, writeSize) && at + |bytes| <= |data|
      requires forall i :: at <= i < at + |bytes| ==> data[i] == ERASED
      modifies this
      ensures Valid() && clean == old(clean) && KeptOutside(old(data), data, at, at + |bytes|)
      ensures Sound(faults, at, at + |bytes|) ==> ok
      ensures ok ==> forall i :: 0 <= i < |data| ==>
        data[i] == if at <= i < at + |bytes| then bytes[i - at] else old(data)[i]
    {
      assert IsBlank(data[at..at + |bytes|]);
      var start, n := at / writeSize, |bytes| / writeSize;
      assert start * writeSize == at && n * writeSize == |bytes|;
      var rc := Bwrite(start, n, bytes);
      ok := rc == n;
      if ok {
        forall i | at <= i < at + |bytes| ensures data[i] == bytes[i - at] {
          AndErased(bytes[i - at]);
        }
      }
    }
  }
}
