/**
 * The null-terminated pointer arrays of Sources/PerfectLDAP/Utilities.swift:
 * `Array.asUnsafeNullTerminatedPointers()`, which boxes every element in a
 * cell of its own, and the top-level `withCArrayOfString(array:_:)`, which
 * lends a `char **` of string copies to a closure.
 */
module NullTerminated {
  import opened Common
  import opened Utf8
  import opened Memory

  /** A one-element allocation (`UnsafeMutablePointer<Element>.allocate(capacity: 1)`). */
  class Cell<T> {
    var value: T

    constructor (v: T)
      ensures value == v
    {
      value := v;
    }
  }

  /** `pointers` holds one cell per element, in order, then a nil slot. */
  ghost predicate Lends<T>(pointers: array<Cell?<T>>, elements: seq<T>)
    reads pointers, set i | 0 <= i < pointers.Length :: pointers[i]
  {
    pointers.Length == |elements| + 1 && pointers[|elements|] == null &&
    forall i :: 0 <= i < |elements| ==> pointers[i] != null && pointers[i].value == elements[i]
  }

  /**
   * `Array.asUnsafeNullTerminatedPointers()`: `count + 1` slots; slot `i`
   * points to a fresh cell holding element `i`, the last slot is nil.
   */
  method AsNullTerminatedPointers<T>(elements: seq<T>) returns (pointers: array<Cell?<T>>)
    ensures fresh(pointers)
    ensures pointers.Length == |elements| + 1
    ensures forall i :: 0 <= i < |elements| ==>
      pointers[i] != null && fresh(pointers[i]) && pointers[i].value == elements[i]
    ensures pointers[|elements|] == null
    ensures forall i, j :: 0 <= i < j < |elements| ==> pointers[i] != pointers[j]
    ensures Lends(pointers, elements)
  {
    pointers := new Cell?<T>[|elements| + 1];
    for i := 0 to |elements|
      invariant forall k :: 0 <= k < i ==>
        pointers[k] != null && fresh(pointers[k]) && pointers[k].value == elements[k]
      invariant forall k, l :: 0 <= k < l < i ==> pointers[k] != pointers[l]
    {
      var p := new Cell(elements[i]);
      pointers[i] := p;
    }
    pointers[|elements|] := null;
  }

  /**
   * What a closure handed a `char **` can read through it: nil, or the
   * strings of the slots up to and including the nil one.
   */
  type View = Option<seq<Option<Bytes>>>

  /** The slots `withCArrayOfString` lends for a non-empty array: a C-string copy of each string, then nil. */
  function Copies(strings: seq<string>): (v: seq<Option<Bytes>>)
    ensures |v| == |strings| + 1
  {
    seq(|strings|, i requires 0 <= i < |strings| => Some(CString(Encode(strings[i])))) + [None]
  }

  /** What the slots `ps` point to in the live blocks. */
  function Contents(blocks: map<nat, Bytes>, ps: seq<Ptr>): seq<Option<Bytes>>
    requires forall i :: 0 <= i < |ps| && ps[i].Addr? ==> ps[i].address in blocks
  {
    seq(|ps|, i requires 0 <= i < |ps| => if ps[i].Addr? then Some(blocks[ps[i].address]) else None)
  }

  predicate Distinct(s: seq<nat>) {
    forall i, j :: 0 <= i < j < |s| ==> s[i] != s[j]
  }

  function Elements(s: seq<nat>): set<nat> {
    set k | 0 <= k < |s| :: s[k]
  }

  lemma ElementsSnoc(s: seq<nat>, x: nat)
    ensures Elements(s + [x]) == Elements(s) + {x}
  {
    var t := s + [x];
    assert forall k :: 0 <= k < |s| ==> t[k] == s[k];
    assert t[|s|] == x;
  }

  /**
   * `blocks` is `before` plus one fresh block per slot, holding the C-string
   * copy of the string of the same index.
   */
  ghost predicate Copied(before: map<nat, Bytes>, blocks: map<nat, Bytes>, slots: seq<nat>, strings: seq<string>) {
    && |slots| <= |strings| && Distinct(slots)
    && (forall k :: 0 <= k < |slots| ==> slots[k] !in before && slots[k] in blocks)
    && (forall k :: 0 <= k < |slots| ==> blocks[slots[k]] == CString(Encode(strings[k])))
    && (forall a :: a in blocks <==> a in before || a in slots)
    && (forall a :: a in before ==> blocks[a] == before[a])
  }

  lemma CopiedStep(before: map<nat, Bytes>, blocks: map<nat, Bytes>, slots: seq<nat>, strings: seq<string>, a: nat)
    requires Copied(before, blocks, slots, strings) && |slots| < |strings| && a !in blocks
    ensures Copied(before, blocks[a := CString(Encode(strings[|slots|]))], slots + [a], strings)
  {
    var s := slots + [a];
    assert forall k :: 0 <= k < |slots| ==> s[k] == slots[k];
  }

  /** Releasing exactly the copies gives back the blocks there were before. */
  lemma Restored(before: map<nat, Bytes>, blocks: map<nat, Bytes>, slots: seq<nat>, strings: seq<string>)
    requires Copied(before, blocks, slots, strings)
    ensures blocks - Elements(slots) == before
  {
    var rest := blocks - Elements(slots);
    assert rest.Keys == before.Keys;
  }

  /**
   * The copying half of `withCArrayOfString`: the `parr` array, a
   * `ber_strdup` copy of every string followed by a nil slot.
   */
  method DupAll(heap: Heap, strings: seq<string>) returns (parr: seq<Ptr>, ghost slots: seq<nat>)
    requires heap.Valid()
    modifies heap
    ensures heap.Valid() && heap.freed == old(heap.freed)
    ensures |parr| == |strings| + 1 && parr[|strings|] == Nil && |slots| == |strings|
    ensures forall k :: 0 <= k < |slots| ==> parr[k] == Addr(slots[k])
    ensures Copied(old(heap.blocks), heap.blocks, slots, strings)
  {
    parr, slots := [], [];
    for i := 0 to |strings|
      invariant heap.Valid() && heap.freed == old(heap.freed)
      invariant |parr| == |slots| == i
      invariant forall k :: 0 <= k < i ==> parr[k] == Addr(slots[k])
      invariant Copied(old(heap.blocks), heap.blocks, slots, strings)
    {
      ghost var before := heap.blocks;
      var p := heap.Dup(Encode(strings[i]));
      CopiedStep(old(heap.blocks), before, slots, strings, p.address);
      parr, slots := parr + [p], slots + [p.address];
    }
    parr := parr + [Nil];
  }

  /** The releasing half of `withCArrayOfString`: `ber_memfree` of every slot, the nil one included. */
  method FreeAll(heap: Heap, parr: seq<Ptr>, ghost slots: seq<nat>)
    requires heap.Valid()
    requires |parr| == |slots| + 1 && parr[|slots|] == Nil && Distinct(slots)
    requires forall k :: 0 <= k < |slots| ==> parr[k] == Addr(slots[k]) && slots[k] in heap.blocks
    modifies heap
    ensures heap.Valid()
    ensures heap.blocks == old(heap.blocks) - Elements(slots)
    ensures heap.freed == old(heap.freed) + slots
  {
    for i := 0 to |parr|
      invariant heap.Valid()
      invariant heap.freed == old(heap.freed) + slots[..if i < |parr| then i else |slots|]
      invariant forall k :: i <= k < |slots| ==> slots[k] in heap.blocks
      invariant heap.blocks == old(heap.blocks) - Elements(slots[..if i < |parr| then i else |slots|])
    {
      heap.Free(parr[i]);
      if i < |slots| {
        assert slots[..i + 1] == slots[..i] + [slots[i]];
        ElementsSnoc(slots[..i], slots[i]);
      }
    }
    assert slots[..|slots|] == slots;
  }

  /**
   * The top-level `withCArrayOfString(array:_:)`.  An empty array lends nil
   * and allocates nothing.  Otherwise every string is copied with
   * `ber_strdup` into a slot, a nil slot follows, and `body` sees those
   * copies; its result is passed through.  When `body` returns normally
   * every slot is released, in slot order; when it throws, the error
   * propagates and the copies are never released.  `slots` are the
   * addresses of the copies.
   */
  method WithCArrayOfString<R>(heap: Heap, strings: seq<string>, body: View -> Result<R>)
    returns (r: Result<R>, ghost slots: seq<nat>)
    requires heap.Valid()
    modifies heap
    ensures heap.Valid()
    ensures strings == [] ==> r == body(None) && slots == [] && unchanged(heap)
    ensures strings != [] ==> r == body(Some(Copies(strings)))
    ensures |slots| == |strings| && Distinct(slots)
    ensures forall i :: 0 <= i < |slots| ==> slots[i] !in old(heap.blocks)
    ensures r.Success? ==> heap.blocks == old(heap.blocks) && heap.freed == old(heap.freed) + slots
    ensures r.Failure? ==> heap.freed == old(heap.freed)
    ensures r.Failure? ==> Copied(old(heap.blocks), heap.blocks, slots, strings)
  {
    if strings == [] {
      r := body(None);
      slots := [];
      return;
    }
    var parr;
    parr, slots := DupAll(heap, strings);
    assert Contents(heap.blocks, parr) == Copies(strings);
    r := body(Some(Contents(heap.blocks, parr)));
    if r.Failure? {
      return;
    }
    Restored(old(heap.blocks), heap.blocks, slots, strings);
    FreeAll(heap, parr, slots);
  }
}
