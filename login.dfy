/**
 * `LDAP.Login` of Sources/PerfectLDAP/PerfectLDAP.swift and the SASL
 * interaction callback that `login(info:)` hands to
 * `ldap_sasl_interactive_bind_s`: the callback answers the library's
 * questions from the login's fields, and every answer it allocates is
 * kept in the login's `trashcan` until `deinit` releases it.
 */
module Sasl {
  import opened Common
  import opened Utf8
  import opened Memory
  import opened NullTerminated

  /** `LDAP.AuthType` and its raw values. */
  datatype AuthType = SIMPLE | GSSAPI | SPNEGO | DIGEST | OTHER

  function MechanismName(m: AuthType): (r: string)
    ensures r == "" <==> m == SIMPLE
  {
    match m
    case SIMPLE => ""
    case GSSAPI => "GSSAPI"
    case SPNEGO => "GSS-SPNEGO"
    case DIGEST => "DIGEST-MD5"
    case OTHER => "UNSUPPORTED"
  }

  /** Distinct mechanisms are announced under distinct names. */
  lemma MechanismNameInjective(a: AuthType, b: AuthType)
    ensures MechanismName(a) == MechanismName(b) ==> a == b
  {
  }

  /** The addresses of the non-nil pointers of `ps`, in order. */
  function Addresses(ps: seq<Ptr>): (r: seq<nat>)
    ensures |r| <= |ps|
  {
    if ps == [] then []
    else Addresses(ps[..|ps| - 1]) + (if ps[|ps| - 1].Addr? then [ps[|ps| - 1].address] else [])
  }

  /** No non-nil pointer occurs twice. */
  predicate Unaliased(ps: seq<Ptr>) {
    forall i, j :: 0 <= i < j < |ps| && ps[i].Addr? ==> ps[i] != ps[j]
  }

  /**
   * The addresses of a pointer list are exactly its non-nil pointers, and
   * each occurs once when no pointer is repeated.
   */
  lemma {:induction false} AddressesOf(ps: seq<Ptr>)
    ensures forall a :: a in Addresses(ps) <==> Addr(a) in ps
    ensures Unaliased(ps) ==> Distinct(Addresses(ps))
  {
    if ps != [] {
      var init := ps[..|ps| - 1];
      AddressesOf(init);
      assert ps == init + [ps[|ps| - 1]];
      if Unaliased(ps) {
        assert Unaliased(init);
      }
    }
  }

  /** The answers of a login, as the callback reads them through its defaults pointer. */
  datatype Defaults = Defaults(authname: string, user: string, password: string, realm: string)

  class Login {
    var authname: string
    var binddn: string
    var user: string
    var password: string
    var realm: string
    var mechanism: AuthType
    /** The answers allocated for the library, released by `deinit`. */
    var trashcan: seq<Ptr>

    /** `init(binddn:password:)`: a simple login. */
    constructor Simple(binddn: string := "", password: string := "")
      ensures this.binddn == binddn && this.password == password && mechanism == SIMPLE
      ensures authname == "" && user == "" && realm == "" && trashcan == []
    {
      this.authname, this.binddn, this.user, this.password, this.realm := "", binddn, "", password, "";
      mechanism := SIMPLE;
      trashcan := [];
    }

    /** `init(authname:user:password:realm:mechanism:)`: a SASL login, whose DN stays empty. */
    constructor Interactive(authname: string := "", user: string := "", password: string := "", realm: string := "",
                            mechanism: AuthType := GSSAPI)
      ensures this.authname == authname && this.user == user && this.password == password
      ensures this.realm == realm && this.mechanism == mechanism
      ensures binddn == "" && trashcan == []
    {
      this.authname, this.binddn, this.user, this.password, this.realm := authname, "", user, password, realm;
      this.mechanism := mechanism;
      trashcan := [];
    }

    function AnswerSource(): Defaults
      reads this
    {
      Defaults(authname, user, password, realm)
    }

    /** Every non-nil entry of the trashcan is a live block, and none occurs twice. */
    ghost predicate Owns(heap: Heap)
      reads this, heap
    {
      Unaliased(trashcan) && forall i :: 0 <= i < |trashcan| && trashcan[i].Addr? ==> trashcan[i].address in heap.blocks
    }

    /** `drop(garbage:)`. */
    method Drop(garbage: Ptr)
      modifies this`trashcan
      ensures trashcan == old(trashcan) + [garbage]
    {
      trashcan := trashcan + [garbage];
    }

    /**
     * `deinit`: every non-nil entry is released once, in trashcan order,
     * and the trashcan is left empty.
     */
    method Deinit(heap: Heap)
      requires heap.Valid() && Owns(heap)
      modifies this`trashcan, heap
      ensures heap.Valid()
      ensures heap.freed == old(heap.freed) + Addresses(old(trashcan))
      ensures heap.blocks == old(heap.blocks) - Elements(Addresses(old(trashcan)))
      ensures trashcan == []
    {
      for i := 0 to |trashcan|
        invariant trashcan == old(trashcan)
        invariant heap.Valid()
        invariant heap.freed == old(heap.freed) + Addresses(trashcan[..i])
        invariant heap.blocks == old(heap.blocks) - Elements(Addresses(trashcan[..i]))
        invariant forall k :: i <= k < |trashcan| && trashcan[k].Addr? ==> trashcan[k].address in heap.blocks
      {
        assert trashcan[..i + 1][..i] == trashcan[..i];
        var garbage := trashcan[i];
        if garbage == Nil {
          assert Addresses(trashcan[..i + 1]) == Addresses(trashcan[..i]);
          continue;
        }
        ghost var done := Addresses(trashcan[..i]);
        assert Addresses(trashcan[..i + 1]) == done + [garbage.address];
        heap.Free(garbage);
        ElementsSnoc(done, garbage.address);
        assert heap.blocks == old(heap.blocks) - (Elements(done) + {garbage.address});
      }
      assert trashcan[..|trashcan|] == trashcan;
      trashcan := [];
    }
  }

  // SASL callback ids of sasl.h
  const SASL_CB_LIST_END: int := 0
  const SASL_CB_USER: int := 0x4001
  const SASL_CB_AUTHNAME: int := 0x4002
  const SASL_CB_PASS: int := 0x4004
  const SASL_CB_ECHOPROMPT: int := 0x4005
  const SASL_CB_NOECHOPROMPT: int := 0x4006
  const SASL_CB_GETREALM: int := 0x4008

  /** One `sasl_interact_t`: the question's id, and the answer pointer and length the callback fills in. */
  datatype Interact = Interact(id: int, result: Ptr, len: nat)

  /** The answer a login gives to a callback id; None when the id ends the round. */
  function Answer(d: Defaults, id: int): Option<string> {
    if id == SASL_CB_AUTHNAME then Some(d.authname)
    else if id == SASL_CB_USER then Some(d.user)
    else if id == SASL_CB_PASS then Some(d.password)
    else if id == SASL_CB_GETREALM then Some(d.realm)
    else if id == SASL_CB_ECHOPROMPT || id == SASL_CB_NOECHOPROMPT then Some("")
    else None
  }

  /** How many items the callback answers: those before the first one that ends the round. */
  function AnsweredCount(d: Defaults, items: seq<Interact>): (n: nat)
    ensures n <= |items|
    ensures forall k :: 0 <= k < n ==> Answer(d, items[k].id).Some?
    ensures n < |items| ==> Answer(d, items[n].id).None?
  {
    if items == [] || Answer(d, items[0].id).None? then 0 else 1 + AnsweredCount(d, items[1..])
  }

  /** The pointers the callback drops into the trashcan: those of the items with a non-empty answer, in order. */
  function Dropped(d: Defaults, items: seq<Interact>): seq<Ptr> {
    if items == [] then []
    else
      var last := items[|items| - 1];
      Dropped(d, items[..|items| - 1]) + (if Answer(d, last.id).Some? && Answer(d, last.id).value != "" then [last.result] else [])
  }

  /** How the callback leaves one item it answers, given the live blocks afterwards. */
  ghost predicate AnsweredWith(d: Defaults, before: Interact, after: Interact, blocks: map<nat, Bytes>) {
    var answer := Answer(d, before.id);
    answer.Some? && after.id == before.id &&
    if answer.value == "" then after == before.(len := 0)
    else
      after.len == |Encode(answer.value)| && after.result.Addr? &&
      after.result.address in blocks && blocks[after.result.address] == CString(Encode(answer.value))
  }

  /** The first `n` items of `after` are the answered items of `before`. */
  ghost predicate AnsweredUpTo(d: Defaults, before: seq<Interact>, after: seq<Interact>, n: nat, blocks: map<nat, Bytes>) {
    n <= |before| && n <= |after| && forall k :: 0 <= k < n ==> AnsweredWith(d, before[k], after[k], blocks)
  }

  /** Answering item `i` extends the answered prefix; earlier items stay answered while blocks are only added. */
  lemma AnsweredStep(d: Defaults, before: seq<Interact>, prev: seq<Interact>, next: seq<Interact>, i: nat,
                     b1: map<nat, Bytes>, b2: map<nat, Bytes>)
    requires AnsweredUpTo(d, before, prev, i, b1) && i < |before| && i < |prev|
    requires |next| == |prev| && next == prev[i := next[i]] && AnsweredWith(d, before[i], next[i], b2)
    requires forall a :: a in b1 ==> a in b2 && b2[a] == b1[a]
    ensures AnsweredUpTo(d, before, next, i + 1, b2)
  {
    forall k | 0 <= k < i
      ensures AnsweredWith(d, before[k], next[k], b2)
    {
      assert next[k] == prev[k];
      assert AnsweredWith(d, before[k], prev[k], b1);
    }
  }

  /** Updating slot `i` leaves the slots after it as they were. */
  lemma UntouchedStep(orig: seq<Interact>, prev: seq<Interact>, next: seq<Interact>, i: nat)
    requires i < |prev| == |orig| && prev[i..] == orig[i..] && |next| == |prev| && next == prev[i := next[i]]
    ensures next[i + 1..] == orig[i + 1..]
  {
    assert forall k :: i + 1 <= k < |next| ==> next[k] == prev[k] == orig[k];
  }

  /** Updating slot `i` adds its pointer, when its answer is non-empty, to the dropped ones of the slots before it. */
  lemma DroppedStep(d: Defaults, prev: seq<Interact>, next: seq<Interact>, i: nat)
    requires i < |prev| && |next| == |prev| && next == prev[i := next[i]]
    ensures Dropped(d, next[..i + 1]) == Dropped(d, prev[..i]) +
      (if Answer(d, next[i].id).Some? && Answer(d, next[i].id).value != "" then [next[i].result] else [])
  {
    assert next[..i + 1][..i] == prev[..i];
  }

  /**
   * `blocks` is `b0` with one fresh block added for each pointer of `ps`:
   * every pointer of `ps` is an address not live in `b0`, and every block of
   * `b0` is kept as it was.
   */
  ghost predicate AddedExactly(b0: map<nat, Bytes>, blocks: map<nat, Bytes>, ps: seq<Ptr>) {
    && (forall k :: 0 <= k < |ps| ==> ps[k].Addr? && ps[k].address !in b0)
    && (forall a :: a in blocks <==> a in b0 || Addr(a) in ps)
    && (forall a :: a in b0 ==> blocks[a] == b0[a])
  }

  /** Blocks added in two steps are the blocks of both steps. */
  lemma AddedTwice(b0: map<nat, Bytes>, b1: map<nat, Bytes>, b2: map<nat, Bytes>, ps: seq<Ptr>, qs: seq<Ptr>)
    requires AddedExactly(b0, b1, ps) && AddedExactly(b1, b2, qs)
    ensures AddedExactly(b0, b2, ps + qs)
  {
    var all := ps + qs;
    assert forall k :: 0 <= k < |all| ==> all[k] == if k < |ps| then ps[k] else qs[k - |ps|];
  }

  /** The live blocks of an `AddedExactly` step, as sets: the old ones and the addresses of `ps`, none of them old. */
  lemma AddedKeys(b0: map<nat, Bytes>, blocks: map<nat, Bytes>, ps: seq<Ptr>)
    requires AddedExactly(b0, blocks, ps)
    ensures blocks.Keys == b0.Keys + Elements(Addresses(ps))
    ensures forall a :: a in Addresses(ps) ==> a !in b0
  {
    AddressesOf(ps);
    forall a | a in Elements(Addresses(ps))
      ensures a in Addresses(ps)
    {
      var k :| 0 <= k < |Addresses(ps)| && Addresses(ps)[k] == a;
    }
    forall a | a in Addresses(ps)
      ensures a in Elements(Addresses(ps)) && a !in b0
    {
      var k :| 0 <= k < |Addresses(ps)| && Addresses(ps)[k] == a;
      var j :| 0 <= j < |ps| && ps[j] == Addr(a);
    }
  }

  /** One answered item carries every loop fact of the callback from slot `i` to slot `i + 1`. */
  lemma Advance(d: Defaults, orig: seq<Interact>, prev: seq<Interact>, next: seq<Interact>, i: nat,
                b0: map<nat, Bytes>, b1: map<nat, Bytes>, b2: map<nat, Bytes>, t0: seq<Ptr>, t1: seq<Ptr>, t2: seq<Ptr>)
    requires i < |prev| == |orig| && prev[i..] == orig[i..] && |next| == |prev| && next == prev[i := next[i]]
    requires AnsweredUpTo(d, orig, prev, i, b1) && AnsweredWith(d, orig[i], next[i], b2)
    requires AddedExactly(b0, b1, Dropped(d, prev[..i]))
    requires AddedExactly(b1, b2, if Answer(d, next[i].id).Some? && Answer(d, next[i].id).value != "" then [next[i].result] else [])
    requires t1 == t0 + Dropped(d, prev[..i])
    requires t2 == t1 + (if Answer(d, next[i].id).Some? && Answer(d, next[i].id).value != "" then [next[i].result] else [])
    ensures next[i + 1..] == orig[i + 1..]
    ensures AnsweredUpTo(d, orig, next, i + 1, b2)
    ensures AddedExactly(b0, b2, Dropped(d, next[..i + 1]))
    ensures t2 == t0 + Dropped(d, next[..i + 1])
  {
    AnsweredStep(d, orig, prev, next, i, b1, b2);
    UntouchedStep(orig, prev, next, i);
    DroppedStep(d, prev, next, i);
    AddedTwice(b0, b1, b2, Dropped(d, prev[..i]),
               if Answer(d, next[i].id).Some? && Answer(d, next[i].id).value != "" then [next[i].result] else []);
  }

  /** The switch on the item's id: the answer a login gives to it, or None when it ends the round. */
  method Pick(def: Login, id: int) returns (dflt: Option<string>)
    ensures id == SASL_CB_AUTHNAME ==> dflt == Some(def.authname)
    ensures id == SASL_CB_USER ==> dflt == Some(def.user)
    ensures id == SASL_CB_PASS ==> dflt == Some(def.password)
    ensures id == SASL_CB_GETREALM ==> dflt == Some(def.realm)
    ensures id == SASL_CB_ECHOPROMPT || id == SASL_CB_NOECHOPROMPT ==> dflt == Some("")
    ensures dflt.None? <==> id !in {SASL_CB_AUTHNAME, SASL_CB_USER, SASL_CB_PASS, SASL_CB_GETREALM, SASL_CB_ECHOPROMPT, SASL_CB_NOECHOPROMPT}
    ensures dflt == Answer(def.AnswerSource(), id)
  {
    if id == SASL_CB_AUTHNAME {
      dflt := Some(def.authname);
    } else if id == SASL_CB_USER {
      dflt := Some(def.user);
    } else if id == SASL_CB_PASS {
      dflt := Some(def.password);
    } else if id == SASL_CB_GETREALM {
      dflt := Some(def.realm);
    } else if id == SASL_CB_LIST_END {
      dflt := None;
    } else if id == SASL_CB_NOECHOPROMPT || id == SASL_CB_ECHOPROMPT {
      dflt := Some("");
    } else {
      dflt := None;
    }
  }

  /**
   * One answer: a non-empty one is copied with `ber_strdup`, its UTF-8 byte
   * count becomes `len` and the copy is dropped into the trashcan; an empty
   * one sets `len` to 0.
   */
  method Respond(def: Login, heap: Heap, interact: Interact, dflt: string) returns (answered: Interact)
    requires heap.Valid() && def.Owns(heap)
    modifies def`trashcan, heap
    ensures heap.Valid() && def.Owns(heap) && heap.freed == old(heap.freed)
    ensures dflt == "" ==> answered == interact.(len := 0) && def.trashcan == old(def.trashcan) && heap.blocks == old(heap.blocks)
    ensures dflt != "" ==> answered == interact.(result := answered.result, len := |Encode(dflt)|)
    ensures dflt != "" ==> answered.result.Addr? && answered.result.address !in old(heap.blocks)
    ensures dflt != "" ==> heap.blocks == old(heap.blocks)[answered.result.address := CString(Encode(dflt))]
    ensures dflt != "" ==> def.trashcan == old(def.trashcan) + [answered.result]
    ensures def.AnswerSource() == old(def.AnswerSource())
  {
    if dflt != "" {
      var str := heap.Dup(Encode(dflt));
      answered := interact.(result := str, len := |Encode(dflt)|);
      def.Drop(str);
    } else {
      answered := interact.(len := 0);
    }
  }

  /** What `Respond` does to the live blocks is one `AddedExactly` step. */
  lemma AnsweredAdds(b1: map<nat, Bytes>, b2: map<nat, Bytes>, dflt: string, p: Ptr)
    requires dflt == "" ==> b2 == b1
    requires dflt != "" ==> p.Addr? && p.address !in b1 && b2 == b1[p.address := CString(Encode(dflt))]
    ensures AddedExactly(b1, b2, if dflt != "" then [p] else [])
  {
  }

  /** One turn of the callback's loop: item `i` answered with `dflt`, written back in place. */
  method AnswerItem(def: Login, items: array<Interact>, heap: Heap, i: nat, dflt: string,
                    ghost d: Defaults, ghost orig: seq<Interact>, ghost t0: seq<Ptr>, ghost b0: map<nat, Bytes>)
    requires i < items.Length == |orig| && Answer(d, orig[i].id) == Some(dflt)
    requires heap.Valid() && def.Owns(heap) && def.AnswerSource() == d
    requires items[i..] == orig[i..] && AnsweredUpTo(d, orig, items[..], i, heap.blocks)
    requires def.trashcan == t0 + Dropped(d, items[..i])
    requires AddedExactly(b0, heap.blocks, Dropped(d, items[..i]))
    modifies items, def`trashcan, heap
    ensures heap.Valid() && def.Owns(heap) && heap.freed == old(heap.freed) && def.AnswerSource() == d
    ensures items[i + 1..] == orig[i + 1..] && AnsweredUpTo(d, orig, items[..], i + 1, heap.blocks)
    ensures def.trashcan == t0 + Dropped(d, items[..i + 1])
    ensures AddedExactly(b0, heap.blocks, Dropped(d, items[..i + 1]))
  {
    ghost var blocksBefore, trashBefore, prev := heap.blocks, def.trashcan, items[..];
    assert items[i] == orig[i];
    var answered := Respond(def, heap, items[i], dflt);
    AnsweredAdds(blocksBefore, heap.blocks, dflt, answered.result);
    items[i] := answered;
    Advance(d, orig, prev, items[..], i, b0, blocksBefore, heap.blocks, t0, trashBefore, def.trashcan);
  }

  /**
   * The callback of `login(info:)`: walks the items in order, answering
   * AUTHNAME, USER, PASS and GETREALM from the login and the two prompts
   * with ""; a non-empty answer is copied with `ber_strdup`, its UTF-8 byte
   * count becomes `len`, and the copy goes to the trashcan; an empty answer
   * sets `len` to 0 and allocates nothing.  SASL_CB_LIST_END or any other
   * id ends the round, leaving that item and the later ones untouched.
   * The live blocks afterwards are the old ones, unchanged, and the fresh
   * copies now in the trashcan.  The status is always 0.
   */
  method InteractCallback(def: Login, items: array<Interact>, heap: Heap) returns (status: int)
    requires heap.Valid() && def.Owns(heap)
    modifies items, def`trashcan, heap
    ensures status == 0
    ensures heap.Valid() && def.Owns(heap) && heap.freed == old(heap.freed)
    ensures var n := AnsweredCount(def.AnswerSource(), old(items[..]));
      && items[n..] == old(items[n..])
      && AnsweredUpTo(def.AnswerSource(), old(items[..]), items[..], n, heap.blocks)
      && def.trashcan == old(def.trashcan) + Dropped(def.AnswerSource(), items[..n])
      && heap.blocks.Keys == old(heap.blocks).Keys + Elements(Addresses(Dropped(def.AnswerSource(), items[..n])))
      && (forall a :: a in Addresses(Dropped(def.AnswerSource(), items[..n])) ==> a !in old(heap.blocks))
    ensures forall a :: a in old(heap.blocks) ==> a in heap.blocks && heap.blocks[a] == old(heap.blocks)[a]
  {
    ghost var d := def.AnswerSource();
    ghost var orig := items[..];
    ghost var n := AnsweredCount(d, orig);
    var pcursor := 0;
    while pcursor < items.Length
      invariant pcursor <= n
      invariant heap.Valid() && def.Owns(heap) && heap.freed == old(heap.freed)
      invariant def.AnswerSource() == d
      invariant items[pcursor..] == orig[pcursor..]
      invariant AnsweredUpTo(d, orig, items[..], pcursor, heap.blocks)
      invariant def.trashcan == old(def.trashcan) + Dropped(d, items[..pcursor])
      invariant AddedExactly(old(heap.blocks), heap.blocks, Dropped(d, items[..pcursor]))
    {
      var interact := items[pcursor];
      assert interact == orig[pcursor];
      var dflt := Pick(def, interact.id);
      if dflt.None? {
        AddedKeys(old(heap.blocks), heap.blocks, Dropped(d, items[..pcursor]));
        return 0;
      }
      AnsweredCountPrefix(d, orig, pcursor);
      AnswerItem(def, items, heap, pcursor, dflt.value, d, orig, old(def.trashcan), old(heap.blocks));
      pcursor := pcursor + 1;
    }
    AddedKeys(old(heap.blocks), heap.blocks, Dropped(d, items[..pcursor]));
    return 0;
  }

  /** Each item before the first one that ends the round is answered. */
  lemma AnsweredCountPrefix(d: Defaults, items: seq<Interact>, i: nat)
    requires i < |items| && i <= AnsweredCount(d, items) && Answer(d, items[i].id).Some?
    ensures i < AnsweredCount(d, items)
  {
  }
}
