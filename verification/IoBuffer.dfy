/**
  The windowed read buffer of components/hcfota/source/hcfota.c: `iobread` over a file, a memory
  image or a callback that may deliver less than it was asked for.
 */
module IoBuffer {
  import opened Cells

  /** `fp`, `fota`, `read_cb`, or none of the three. */
  datatype SourceKind = File | Memory | Callback | Missing

  function Min(a: nat, b: nat): nat {
    if a < b then a else b
  }

  class Buffer {
    const kind: SourceKind
    const image: seq<Cell>
    const size: nat
    const buf: array<Cell>
    var len: nat
    var pos: nat
    var offset: nat

    /** The window holds the image from `offset - pos` on; `offset` is where reading goes on. */
    ghost predicate Valid()
      reads this, buf
    {
      && 0 < size == buf.Length
      && len <= size && pos <= offset <= |image| && offset - pos + len <= |image|
      && buf[..len] == image[offset - pos..offset - pos + len]
      && (kind == Missing ==> len == 0)
    }

    constructor (kind: SourceKind, image: seq<Cell>, size: nat)
      requires 0 < size
      ensures Valid() && fresh(buf)
      ensures this.kind == kind && this.image == image && this.size == size
    {
      this.kind, this.image, this.size := kind, image, size;
      buf := new Cell[size](_ => 0);
      len, pos, offset := 0, 0, 0;
    }

    /** The next `n` bytes of the source. */
    method Load(n: nat)
      requires n <= buf.Length && offset + n <= |image|
      modifies buf
      ensures buf[..n] == image[offset..offset + n]
    {
      for i := 0 to n
        invariant forall k :: 0 <= k < i ==> buf[k] == image[offset + k]
      {
        buf[i] := image[offset + i];
      }
    }

    /** Refills the window from `offset` on; nothing comes only at the end of the image. */
    method Fill()
      requires 0 < size == buf.Length && offset <= |image|
      modifies this`len, this`pos, buf
      ensures Valid() && pos == 0
      ensures len > 0 <==> kind != Missing && offset < |image|
      ensures kind == File || kind == Memory ==> len == Min(size, |image| - offset)
    {
      var most := Min(size, |image| - offset);
      var n := 0;
      if kind == File {
        n := most;
      } else if kind == Memory {
        n := if |image| - offset >= size then size else |image| - offset;
      } else if kind == Callback && most > 0 {
        n :| 0 < n <= most;
      }
      Load(n);
      len, pos := n, 0;
    }

    /** Moves the window so that reading goes on at `off`; what it holds is kept when `off` may lie inside. */
    method Seek(off: nat)
      requires Valid() && off <= |image|
      modifies this`len, this`pos, this`offset
      ensures Valid() && offset == off
      ensures if old(offset) <= off < old(offset) + old(len) then
                len == old(len) && pos == old(pos) + (off - old(offset))
              else len == pos == 0
    {
      if off < offset || off >= offset + len {
        len := 0;
        pos := 0;
        offset := off;
      }
      pos := pos + (off - offset);
      offset := off;
    }

    lemma WindowPart(base: nat, n: nat, p: nat, k: nat)
      requires n <= buf.Length && base + n <= |image| && buf[..n] == image[base..base + n] && p + k <= n
      ensures buf[p..p + k] == image[base + p..base + p + k]
    {
      var b, i := buf[p..p + k], image[base + p..base + p + k];
      forall j | 0 <= j < k ensures b[j] == i[j] {
        assert buf[..n][p + j] == image[base..base + n][p + j];
      }
    }

    /** Copies up to `remain` bytes out of the window. */
    method Take(remain: nat) returns (out: seq<Cell>)
      requires Valid() && pos < len && 0 < remain
      modifies this`pos, this`offset
      ensures Valid() && 0 < |out| <= remain
      ensures offset == old(offset) + |out| && out == image[old(offset)..offset]
    {
      var k := Min(remain, len - pos);
      WindowPart(offset - pos, len, pos, k);
      out := buf[pos..pos + k];
      pos := pos + k;
      offset := offset + k;
    }

    /** All `n` bytes at `off` can be had. */
    predicate Delivers(n: nat, off: nat) {
      n == 0 || (kind != Missing && off + n <= |image|)
    }

    /**
      `iobread`: whatever was read before, the bytes are those of the image at `off`, as many as were
      asked for unless the image ends first.
     */
    method Read(n: nat, off: nat) returns (out: seq<Cell>)
      requires Valid() && off <= |image|
      modifies this`len, this`pos, this`offset, buf
      ensures Valid()
      ensures |out| == if kind == Missing then 0 else Min(n, |image| - off)
      ensures |out| == n <==> Delivers(n, off)
      ensures off + |out| <= |image| && out == image[off..off + |out|]
    {
      out := [];
      if n == 0 {
        assert out == image[off..off];
        return;
      }
      Seek(off);
      var remain: nat := n;
      while remain > 0
        invariant Valid()
        invariant remain + |out| == n && offset == off + |out|
        invariant out == image[off..offset]
        invariant kind == Missing ==> out == []
        decreases remain
      {
        if pos >= len {
          Fill();
          if len == 0 {
            break;
          }
        }
        ghost var before := offset;
        var chunk := Take(remain);
        assert image[off..offset] == image[off..before] + image[before..offset];
        out := out + chunk;
        remain := remain - |chunk|;
      }
    }
  }
}
