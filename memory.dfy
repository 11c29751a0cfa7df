/**
 * The C allocator as the model sees it: the live blocks with their
 * contents, and the order in which blocks were released.  Only the
 * allocations whose release the source is responsible for go through it
 * (the SASL answers kept in `Login.trashcan`, the string copies made by
 * `withCArrayOfString`, the copy of the sort string).
 */
module Memory {
  import opened Common
  import opened Utf8

  class Heap {
    var blocks: map<nat, Bytes>
    var next: nat
    var freed: seq<nat>

    ghost predicate Valid()
      reads this
    {
      forall a :: a in blocks ==> a < next
    }

    constructor ()
      ensures Valid() && blocks == map[] && freed == []
    {
      blocks, next, freed := map[], 0, [];
    }

    /** `ber_strdup` / `strdup`: a fresh block holding the C string of `b`. */
    method Dup(b: Bytes) returns (p: Ptr)
      requires Valid()
      modifies this
      ensures Valid()
      ensures p.Addr? && p.address !in old(blocks)
      ensures blocks == old(blocks)[p.address := CString(b)]
      ensures freed == old(freed)
    {
      p := Addr(next);
      blocks := blocks[next := CString(b)];
      next := next + 1;
    }

    /** `ber_memfree` / `free`: releases a live block; a nil pointer is ignored. */
    method Free(p: Ptr)
      requires Valid()
      requires p.Addr? ==> p.address in blocks
      modifies this
      ensures Valid()
      ensures blocks == if p.Addr? then old(blocks) - {p.address} else old(blocks)
      ensures freed == if p.Addr? then old(freed) + [p.address] else old(freed)
    {
      if p.Addr? {
        blocks := blocks - {p.address};
        freed := freed + [p.address];
      }
    }
  }
}
