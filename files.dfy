/**
 * A file opened with `fopen(path, "wb")`, seen as the bytes it holds. `fwrite` writes at the current
 * position (overwriting, then extending), `fseek` moves the position, and `fflush` + `fsync` make the
 * current contents durable; `Synced` is what a crash would leave on the card.
 */
module Files {
  import opened Common

  /** The contents after writing `b` at position `pos` of `data` (`pos <= |data|`). */
  function Overwrite(data: seq<byte>, pos: nat, b: seq<byte>): (r: seq<byte>)
    requires pos <= |data|
    ensures |r| == if pos + |b| <= |data| then |data| else pos + |b|
    ensures r[..pos] == data[..pos]
    ensures r[pos..pos + |b|] == b
    ensures r[pos + |b|..] == if pos + |b| <= |data| then data[pos + |b|..] else []
  {
    if pos + |b| <= |data| then data[..pos] + b + data[pos + |b|..] else data[..pos] + b
  }

  /** Writing at the end of the contents appends. */
  lemma OverwriteAtEnd(data: seq<byte>, b: seq<byte>)
    ensures Overwrite(data, |data|, b) == data + b
  {
  }

  class File {
    var data: seq<byte>
    var pos: nat
    var synced: seq<byte>

    ghost predicate Valid()
      reads this
    {
      pos <= |data|
    }

    /** A file just created (truncated) by `fopen(path, "wb")`. */
    constructor ()
      ensures Valid() && data == [] && pos == 0 && synced == []
    {
      data, pos, synced := [], 0, [];
    }

    /** `fwrite(b, 1, |b|, f)`. */
    method Write(b: seq<byte>)
      requires Valid()
      modifies this
      ensures Valid()
      ensures data == Overwrite(old(data), old(pos), b)
      ensures pos == old(pos) + |b| && synced == old(synced)
    {
      data := Overwrite(data, pos, b);
      pos := pos + |b|;
    }

    /** `fseek(f, 0, SEEK_SET)`. */
    method Rewind()
      requires Valid()
      modifies this`pos
      ensures Valid() && pos == 0
    {
      pos := 0;
    }

    /** `fseek(f, 0, SEEK_END)`. */
    method SeekEnd()
      requires Valid()
      modifies this`pos
      ensures Valid() && pos == |data|
    {
      pos := |data|;
    }

    /** `fflush(f); fsync(fileno(f))`, and `fclose(f)`, which also commits the contents. */
    method Sync()
      requires Valid()
      modifies this`synced
      ensures Valid() && synced == data
    {
      synced := data;
    }
  }
}
