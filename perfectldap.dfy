/**
 * The `LDAP` class of Sources/PerfectLDAP/PerfectLDAP.swift: opening a
 * session, `login(info:)`, the synchronous `search`, `add`, `modify` and
 * `delete`.  Every call into OpenLDAP is recorded, in order, in `calls`;
 * what the library answers (statuses, message chains, SASL rounds) is
 * given to each operation as a parameter, and `ldap_err2string` is the
 * session's `errorText`.
 */
module PerfectLdap {
  import opened Common
  import opened Utf8
  import opened Memory
  import opened Transcoding
  import opened NullTerminated
  import opened Messages
  import opened Sasl

  /** `LDAP.Scope` and its raw values. */
  datatype Scope = BASE | SINGLE_LEVEL | SUBTREE | CHILDREN | DEFAULT

  function ScopeValue(s: Scope): int {
    match s
    case BASE => 0
    case SINGLE_LEVEL => 1
    case SUBTREE => 2
    case CHILDREN => 3
    case DEFAULT => -1
  }

  // Modification operations and protocol version of ldap.h
  const LDAP_MOD_ADD: int := 0x00
  const LDAP_MOD_DELETE: int := 0x01
  const LDAP_MOD_REPLACE: int := 0x02
  const LDAP_MOD_BVALUES: int := 0x80
  const LDAP_VERSION3: int := 3

  /** `LDAP_MOD_ADD | LDAP_MOD_BVALUES`, the operation of every descriptor `add` builds. */
  const ADD_VALUES: int := LDAP_MOD_ADD + LDAP_MOD_BVALUES
  /** `LDAP_MOD_REPLACE | LDAP_MOD_BVALUES`, the default operation of `modify`. */
  const REPLACE_VALUES: int := LDAP_MOD_REPLACE + LDAP_MOD_BVALUES

  /** The credential of a simple bind: its `bv_len` and the bytes `bv_val` points to. */
  datatype Credential = Credential(len: nat, val: Bytes)

  /** An `LDAPMod`: operation, attribute name copy, and the null-terminated berval array. */
  datatype LdapMod = LdapMod(op: int, modType: Bytes, values: array<Cell?<Berval>>)

  /** The calls made into OpenLDAP, with what each is handed. */
  datatype Call =
    | Initialize(url: string)
    | SetProtocolVersion(version: int)
    | SimpleBind(dn: string, credential: Credential)
    | InteractiveBind(dn: string, mechanism: string)
    | CreateSortKeyList(keys: Bytes)
    | CreateSortControl
    | FreeSortKeyList
    | SearchEntries(base: string, filter: string, scope: int, attributes: View, sorted: bool)
    | FreeControl
    | FreeMessages
    | AddEntry(dn: string, mods: array<Cell?<LdapMod>>)
    | ModifyEntry(dn: string, mods: array<Cell?<LdapMod>>)
    | FreeMods(mods: array<Cell?<LdapMod>>)
    | DeleteEntry(dn: string)
    | Unbind

  /**
   * What the library answers a login: the status of `ldap_sasl_bind_s`, or
   * the rounds of questions `ldap_sasl_interactive_bind_s` puts to the
   * callback and its final status.
   */
  datatype BindReply = BindReply(simpleStatus: int, rounds: seq<array<Interact>>, saslStatus: int)

  /** What the library answers a search: sort key list and sort control statuses, then the search itself. */
  datatype SearchReply = SearchReply(keyListStatus: int, controlStatus: int, status: int, chain: Option<seq<RawMessage>>)

  /** How `search` ends: the dictionary, a thrown message, or the trap of `values[0]` on an attribute without values. */
  datatype SearchOutcome = Found(dictionary: map<string, map<string, Value>>) | Thrown(message: string) | Trapped

  /**
   * `Iconv.CodePage`: UTF-8, or another code page and the outcome of opening
   * its two converters, the decoder (`Iconv(from: codePage, to: .UTF8)`)
   * and the encoder (`Iconv(from: .UTF8, to: codePage)`).
   */
  datatype CodePage = UTF8 | Foreign(decoder: Result<Converter>, encoder: Result<Converter>)

  /** What a status turns into: success for 0, otherwise the library's text for it. */
  function Check(errorText: int -> string, status: int): (o: Outcome)
    ensures o.Ok? <==> status == 0
    ensures o.Fail? ==> o.message == errorText(status)
  {
    if status == 0 then Ok else Fail(errorText(status))
  }

  /**
   * The credential `login(info:)` sends: a `ber_strdup` of the password,
   * with `strlen` of the copy as length.  The copy is the UTF-8 text up to
   * its first NUL, so it is the whole text exactly when the password holds
   * no NUL.
   */
  function SimpleCredential(password: string): (c: Credential)
    ensures c.len == |c.val| <= |Encode(password)|
    ensures c.val == Encode(password)[..c.len] && 0 !in c.val
    ensures c.len < |Encode(password)| ==> Encode(password)[c.len] == 0
    ensures c.len == |Encode(password)| <==> NoNul(password)
  {
    EncodeNoNul(password);
    var copy := CString(Encode(password));
    Credential(|copy|, copy)
  }

  /** The binds `login(info:)` makes: none for OTHER, one simple bind for SIMPLE, one interactive bind otherwise. */
  function LoginCalls(binddn: string, password: string, m: AuthType): seq<Call> {
    if m == OTHER then []
    else if m == SIMPLE then [SimpleBind(binddn, SimpleCredential(password))]
    else [InteractiveBind(binddn, MechanismName(m))]
  }

  /** The result of `login(info:)` for a login with mechanism `m`. */
  function LoginOutcome(errorText: int -> string, m: AuthType, reply: BindReply): Outcome {
    if m == OTHER then Fail("UNSUPPORTED MECHANISMS")
    else if m == SIMPLE then Check(errorText, reply.simpleStatus)
    else Check(errorText, reply.saslStatus)
  }

  /** What the closure of `search` is lent for the attribute list. */
  function AttributeView(attributes: seq<string>): View {
    if attributes == [] then None else Some(Copies(attributes))
  }

  /** The text thrown while building the sort control, if any: the key list's status first, then the control's. */
  function SortFailure(errorText: int -> string, sortedBy: string, reply: SearchReply): Option<string> {
    if sortedBy == "" then None
    else if reply.keyListStatus != 0 then Some(errorText(reply.keyListStatus))
    else if reply.controlStatus != 0 then Some(errorText(reply.controlStatus))
    else None
  }

  /** The calls made while building the sort control. */
  function SortCalls(sortedBy: string, reply: SearchReply): seq<Call> {
    if sortedBy == "" then []
    else [CreateSortKeyList(CString(Encode(sortedBy)))]
         + (if reply.keyListStatus != 0 then [] else [CreateSortControl, FreeSortKeyList])
  }

  /** What a returned message chain turns into: the dictionary of its entries, or the trap. */
  function ChainVerdict(t: Transcoder, chain: seq<RawMessage>): SearchOutcome {
    var rs := ResultSetOf(t, chain);
    if AllValued(rs.attributeSet) then Found(DictionaryOf(rs.attributeSet)) else Trapped
  }

  /** The result of `search` for a sort string and the library's answers. */
  function SearchVerdict(errorText: int -> string, t: Transcoder, sortedBy: string, reply: SearchReply): SearchOutcome {
    match SortFailure(errorText, sortedBy, reply)
    case Some(message) => Thrown(message)
    case None =>
      match reply.chain
      case None => Thrown(errorText(reply.status))
      case Some(chain) => ChainVerdict(t, chain)
  }

  /** The calls `search` makes, in order. */
  function SearchCalls(errorText: int -> string, base: string, filter: string, scope: Scope, attributes: seq<string>,
                       sortedBy: string, reply: SearchReply): seq<Call> {
    SortCalls(sortedBy, reply)
      + (if SortFailure(errorText, sortedBy, reply).Some? then []
         else QueryCalls(SearchEntries(base, filter, ScopeValue(scope), AttributeView(attributes), sortedBy != ""),
                         sortedBy != "", reply.chain.Some?))
  }

  /** The calls once the sort control is built: the search, the control freed if there is one, the chain freed if one came back. */
  function QueryCalls(search: Call, sorted: bool, chained: bool): seq<Call> {
    [search] + (if sorted then [FreeControl] else []) + (if chained then [FreeMessages] else [])
  }

  /** The bervals `modAlloc` makes of the values: `string(str:)` of each, in order. */
  function Bervals(t: Transcoder, values: seq<string>): (r: seq<Berval>)
    ensures |r| == |values|
  {
    seq(|values|, i requires 0 <= i < |values| => StringToBerval(t, values[i]))
  }

  /** `m` is the descriptor `modAlloc(method:key:values:)` builds. */
  ghost predicate Describes(m: LdapMod, t: Transcoder, op: int, key: string, values: seq<string>)
    reads m.values, set i | 0 <= i < m.values.Length :: m.values[i]
  {
    m.op == op && m.modType == CString(Encode(key)) && Lends(m.values, Bervals(t, values))
  }

  /** `keys` lists every key of `attributes` exactly once. */
  ghost predicate Enumerates(keys: seq<string>, attributes: map<string, seq<string>>) {
    && |keys| == |attributes|
    && (forall k :: k in attributes <==> k in keys)
    && (forall i, j :: 0 <= i < j < |keys| ==> keys[i] != keys[j])
  }

  /** `mods` holds one descriptor per key, in the order `keys` lists them. */
  ghost predicate DescribesAll(mods: seq<LdapMod>, t: Transcoder, op: int, keys: seq<string>, attributes: map<string, seq<string>>)
    reads set i | 0 <= i < |mods| :: mods[i].values
    reads set i, j | 0 <= i < |mods| && 0 <= j < mods[i].values.Length :: mods[i].values[j]
  {
    && Enumerates(keys, attributes)
    && |mods| == |keys|
    && forall i :: 0 <= i < |keys| ==> Describes(mods[i], t, op, keys[i], attributes[keys[i]])
  }

  /** The raw values of the scopes are pairwise distinct. */
  lemma ScopeValuesDistinct(a: Scope, b: Scope)
    ensures ScopeValue(a) == ScopeValue(b) <==> a == b
    ensures ScopeValue(a) == -1 <==> a == DEFAULT
  {
  }

  /**
   * `login(info:)` succeeds only through a bind: OTHER always fails with
   * its message, SIMPLE succeeds exactly when the simple bind does, every
   * other mechanism exactly when the interactive bind does.
   */
  lemma LoginSucceedsOnlyByBind(errorText: int -> string, m: AuthType, reply: BindReply)
    ensures m == OTHER ==> LoginOutcome(errorText, m, reply) == Fail("UNSUPPORTED MECHANISMS")
    ensures m == SIMPLE ==> (LoginOutcome(errorText, m, reply).Ok? <==> reply.simpleStatus == 0)
    ensures m != SIMPLE && m != OTHER ==> (LoginOutcome(errorText, m, reply).Ok? <==> reply.saslStatus == 0)
    ensures LoginOutcome(errorText, m, reply).Fail? && m != OTHER ==>
      LoginOutcome(errorText, m, reply).message == errorText(if m == SIMPLE then reply.simpleStatus else reply.saslStatus)
  {
  }

  /**
   * Once the sort control is built, `search` ignores the status whenever a
   * chain comes back, and throws the status's text, even that of status 0,
   * whenever none does.
   */
  lemma SearchIgnoresStatusWithChain(errorText: int -> string, t: Transcoder, sortedBy: string, reply: SearchReply, status: int)
    requires SortFailure(errorText, sortedBy, reply).None?
    ensures reply.chain.Some? ==>
      SearchVerdict(errorText, t, sortedBy, reply) == SearchVerdict(errorText, t, sortedBy, reply.(status := status))
    ensures reply.chain.None? ==> SearchVerdict(errorText, t, sortedBy, reply) == Thrown(errorText(reply.status))
    ensures reply.chain.Some? ==> !SearchVerdict(errorText, t, sortedBy, reply).Thrown?
  {
  }

  /** An empty sort string builds no control and cannot fail before the search. */
  lemma UnsortedSearch(errorText: int -> string, base: string, filter: string, scope: Scope, attributes: seq<string>, reply: SearchReply)
    ensures SortFailure(errorText, "", reply) == None
    ensures SearchCalls(errorText, base, filter, scope, attributes, "", reply)[0] == SearchEntries(base, filter, ScopeValue(scope), AttributeView(attributes), false)
    ensures CreateSortControl !in SearchCalls(errorText, base, filter, scope, attributes, "", reply)
  {
  }

  /**
   * What `search` creates it releases: the sort key list exactly when it
   * was created, the control exactly when it was created and the search
   * ran, the message chain exactly when one came back to a search that ran.
   */
  lemma SearchReleases(errorText: int -> string, base: string, filter: string, scope: Scope, attributes: seq<string>,
                       sortedBy: string, reply: SearchReply)
    ensures var calls := SearchCalls(errorText, base, filter, scope, attributes, sortedBy, reply);
      && (FreeSortKeyList in calls <==> sortedBy != "" && reply.keyListStatus == 0)
      && (FreeSortKeyList in calls <==> CreateSortControl in calls)
      && (FreeControl in calls <==> CreateSortControl in calls && SortFailure(errorText, sortedBy, reply).None?)
      && (FreeMessages in calls <==> reply.chain.Some? && SortFailure(errorText, sortedBy, reply).None?)
      && (SortFailure(errorText, sortedBy, reply).None? <==> exists i :: 0 <= i < |calls| && calls[i].SearchEntries?)
  {
    var sort := SortCalls(sortedBy, reply);
    SortCallsContain(sortedBy, reply);
    if SortFailure(errorText, sortedBy, reply).None? {
      var search := SearchEntries(base, filter, ScopeValue(scope), AttributeView(attributes), sortedBy != "");
      var query := QueryCalls(search, sortedBy != "", reply.chain.Some?);
      QueryCallsContain(search, sortedBy != "", reply.chain.Some?);
      SearchAfter(sort, query);
    } else {
      assert SearchCalls(errorText, base, filter, scope, attributes, sortedBy, reply) == sort + [];
      SearchAfter(sort, []);
    }
  }

  /** What the sort control's calls hold: never a search, a free of the control or of a chain. */
  lemma SortCallsContain(sortedBy: string, reply: SearchReply)
    ensures var sort := SortCalls(sortedBy, reply);
      && (FreeSortKeyList in sort <==> sortedBy != "" && reply.keyListStatus == 0)
      && (CreateSortControl in sort <==> sortedBy != "" && reply.keyListStatus == 0)
      && FreeControl !in sort && FreeMessages !in sort
      && forall i :: 0 <= i < |sort| ==> !sort[i].SearchEntries?
  {
  }

  /** What the calls after the sort control hold: the search first, the control's and chain's frees as asked. */
  lemma QueryCallsContain(search: Call, sorted: bool, chained: bool)
    requires search.SearchEntries?
    ensures var query := QueryCalls(search, sorted, chained);
      && query[0] == search
      && (FreeControl in query <==> sorted) && (FreeMessages in query <==> chained)
      && FreeSortKeyList !in query && CreateSortControl !in query
  {
  }

  /** A search occurs in `sort + query` exactly when it occurs in `query`, given none in `sort`. */
  lemma SearchAfter(sort: seq<Call>, query: seq<Call>)
    requires forall i :: 0 <= i < |sort| ==> !sort[i].SearchEntries?
    ensures (exists i :: 0 <= i < |sort + query| && (sort + query)[i].SearchEntries?) <==>
            (exists i :: 0 <= i < |query| && query[i].SearchEntries?)
  {
    var calls := sort + query;
    if exists i :: 0 <= i < |calls| && calls[i].SearchEntries? {
      var i :| 0 <= i < |calls| && calls[i].SearchEntries?;
      assert calls[i] == query[i - |sort|];
    }
    if exists i :: 0 <= i < |query| && query[i].SearchEntries? {
      var i :| 0 <= i < |query| && query[i].SearchEntries?;
      assert calls[|sort| + i] == query[i];
    }
  }

  /**
   * The descriptors of `add` and `modify` cover the dictionary: one per
   * key, holding that key's values, in the order the keys were taken.
   */
  lemma DescriptorsCover(mods: seq<LdapMod>, t: Transcoder, op: int, keys: seq<string>, attributes: map<string, seq<string>>, k: string)
    requires DescribesAll(mods, t, op, keys, attributes)
    requires k in attributes
    ensures |mods| == |attributes|
    ensures exists i :: (0 <= i < |mods| && keys[i] == k && mods[i].op == op && mods[i].modType == CString(Encode(k))
                         && Lends(mods[i].values, Bervals(t, attributes[k])))
  {
    var i :| 0 <= i < |keys| && keys[i] == k;
    assert Describes(mods[i], t, op, keys[i], attributes[keys[i]]);
  }

  class LDAP {
    /** `iconv` and `iconvR`, fixed when the session opens. */
    const transcoder: Transcoder
    /** `LDAP.error(_:)`: `ldap_err2string`. */
    const errorText: int -> string
    var calls: seq<Call>

    constructor (transcoder: Transcoder, errorText: int -> string)
      ensures this.transcoder == transcoder && this.errorText == errorText && calls == []
    {
      this.transcoder := transcoder;
      this.errorText := errorText;
      calls := [];
    }

    /**
     * `init(url:loginData:codePage:)`: opens both converters for a code page
     * other than UTF-8 (a failure propagates), initializes the handle (a
     * non-zero status throws its text), sets protocol version 3 whatever
     * that answers, and logs in only when login data is given.  Once `init`
     * has begun every stored property has its default, so a throw still runs
     * `deinit`, which unbinds the handle; `session` is the call log of the
     * object, ending with that unbind when `init` throws.
     */
    static method Open(url: string := "ldaps://localhost", loginData: Login? := null, codePage: CodePage := UTF8, errorText: int -> string,
                       initStatus: int, heap: Heap, reply: BindReply) returns (r: Result<LDAP>, ghost session: seq<Call>)
      requires heap.Valid()
      requires loginData != null ==> loginData.Owns(heap)
      modifies heap, (if loginData == null then {} else {loginData})`trashcan, set i | 0 <= i < |reply.rounds| :: reply.rounds[i]
      ensures heap.Valid() && (loginData != null ==> loginData.Owns(heap))
      ensures codePage.Foreign? && codePage.decoder.Failure? ==> r == Failure(codePage.decoder.message)
      ensures codePage.Foreign? && codePage.decoder.Success? && codePage.encoder.Failure? ==>
        r == Failure(codePage.encoder.message)
      ensures codePage.UTF8? || (codePage.decoder.Success? && codePage.encoder.Success?) ==>
        && (initStatus != 0 ==> r == Failure(errorText(initStatus)))
        && (initStatus == 0 && loginData == null ==> r.Success?)
        && (initStatus == 0 && loginData != null ==>
              match LoginOutcome(errorText, loginData.mechanism, reply)
              case Ok => r.Success?
              case Fail(m) => r == Failure(m))
      ensures r.Success? ==> fresh(r.value) && r.value.errorText == errorText
      ensures r.Success? ==>
        r.value.calls == [Initialize(url), SetProtocolVersion(LDAP_VERSION3)] +
                         (if loginData == null then [] else LoginCalls(loginData.binddn, loginData.password, loginData.mechanism))
      ensures r.Success? ==> r.value.transcoder == if codePage.UTF8? then Utf8Server else
        Transcoder(Some(codePage.decoder.value), Some(codePage.encoder.value))
      ensures r.Success? ==> session == r.value.calls
      ensures codePage.Foreign? && (codePage.decoder.Failure? || codePage.encoder.Failure?) ==> session == [Unbind]
      ensures r.Failure? && initStatus != 0 && (codePage.UTF8? || (codePage.decoder.Success? && codePage.encoder.Success?)) ==>
        session == [Initialize(url), Unbind]
      ensures r.Failure? && initStatus == 0 && (codePage.UTF8? || (codePage.decoder.Success? && codePage.encoder.Success?)) ==>
        loginData != null &&
        session == [Initialize(url), SetProtocolVersion(LDAP_VERSION3)] +
                   LoginCalls(loginData.binddn, loginData.password, loginData.mechanism) + [Unbind]
    {
      var transcoder := Utf8Server;
      if codePage.Foreign? {
        if codePage.decoder.Failure? {
          return Failure(codePage.decoder.message), [Unbind];
        }
        if codePage.encoder.Failure? {
          return Failure(codePage.encoder.message), [Unbind];
        }
        transcoder := Transcoder(Some(codePage.decoder.value), Some(codePage.encoder.value));
      }
      var ldap := new LDAP(transcoder, errorText);
      ldap.calls := ldap.calls + [Initialize(url)];
      if initStatus != 0 {
        ldap.Close();
        return Failure(errorText(initStatus)), ldap.calls;
      }
      ldap.calls := ldap.calls + [SetProtocolVersion(LDAP_VERSION3)];
      if loginData == null {
        return Success(ldap), ldap.calls;
      }
      var outcome := ldap.Login(loginData, heap, reply);
      if outcome.Fail? {
        ldap.Close();
        return Failure(outcome.message), ldap.calls;
      }
      r, session := Success(ldap), ldap.calls;
    }

    /**
     * `login(info:)`: no login data, or mechanism OTHER, fails before any
     * bind; SIMPLE makes one simple bind with the DN and a copy of the
     * password, released afterwards; every other mechanism makes one
     * interactive bind whose callback answers each round from the login.
     */
    method Login(info: Login?, heap: Heap, reply: BindReply) returns (outcome: Outcome)
      requires heap.Valid()
      requires info != null ==> info.Owns(heap)
      modifies this`calls, heap, (if info == null then {} else {info})`trashcan, set i | 0 <= i < |reply.rounds| :: reply.rounds[i]
      ensures heap.Valid() && (info != null ==> info.Owns(heap))
      ensures info == null ==> outcome == Fail("LOGIN DATA NOT AVAILABLE") && calls == old(calls) && unchanged(heap)
      ensures info != null ==> outcome == LoginOutcome(errorText, info.mechanism, reply)
      ensures info != null ==> calls == old(calls) + LoginCalls(info.binddn, info.password, info.mechanism)
      ensures info != null && info.mechanism == OTHER ==> unchanged(heap)
      ensures info != null && info.mechanism == SIMPLE ==>
        heap.blocks == old(heap.blocks) && info.trashcan == old(info.trashcan)
      ensures info != null && info.mechanism != SIMPLE && info.mechanism != OTHER ==>
        && heap.freed == old(heap.freed)
        && old(info.trashcan) <= info.trashcan
    {
      if info == null {
        return Fail("LOGIN DATA NOT AVAILABLE");
      }
      if info.mechanism == OTHER {
        return Fail("UNSUPPORTED MECHANISMS");
      }
      if info.mechanism == SIMPLE {
        var copy := heap.Dup(Encode(info.password));
        var credential := Credential(|heap.blocks[copy.address]|, heap.blocks[copy.address]);
        calls := calls + [SimpleBind(info.binddn, credential)];
        heap.Free(copy);
        return Check(errorText, reply.simpleStatus);
      }
      calls := calls + [InteractiveBind(info.binddn, MechanismName(info.mechanism))];
      for round := 0 to |reply.rounds|
        invariant heap.Valid() && info.Owns(heap) && heap.freed == old(heap.freed)
        invariant old(info.trashcan) <= info.trashcan
        invariant calls == old(calls) + [InteractiveBind(info.binddn, MechanismName(info.mechanism))]
      {
        var _ := InteractCallback(info, reply.rounds[round], heap);
      }
      return Check(errorText, reply.saslStatus);
    }

    /**
     * The synchronous `search`.  A non-empty sort string is copied and
     * turned into a sort key list and a sort control, either of which can
     * throw its status's text; the copy is released on every path and the
     * key list once the control exists.  The search is made with the
     * attribute list lent by `withCArrayOfString`.  Whenever a message
     * chain comes back it is decoded and the dictionary returned, whatever
     * the status; without a chain the status's text is thrown, even for
     * status 0.
     */
    method Search(heap: Heap, base: string := "", filter: string := "(objectclass=*)", scope: Scope := BASE,
                  attributes: seq<string> := [], sortedBy: string := "", reply: SearchReply) returns (r: SearchOutcome)
      requires heap.Valid()
      modifies this`calls, heap
      ensures heap.Valid() && heap.blocks == old(heap.blocks)
      ensures r == SearchVerdict(errorText, transcoder, sortedBy, reply)
      ensures calls == old(calls) + SearchCalls(errorText, base, filter, scope, attributes, sortedBy, reply)
    {
      var failure := BuildSortControl(heap, sortedBy, reply);
      if failure.Some? {
        return Thrown(failure.value);
      }
      r := Query(heap, base, filter, scope, attributes, sortedBy != "", reply);
    }

    /**
     * The search half of `search`, once any sort control exists: the
     * search with the lent attribute list, the control freed, then the
     * chain decoded and freed, or the status's text thrown without one.
     */
    method Query(heap: Heap, base: string, filter: string, scope: Scope, attributes: seq<string>,
                 sorted: bool, reply: SearchReply) returns (r: SearchOutcome)
      requires heap.Valid()
      modifies this`calls, heap
      ensures heap.Valid() && heap.blocks == old(heap.blocks)
      ensures r == (if reply.chain.Some? then ChainVerdict(transcoder, reply.chain.value) else Thrown(errorText(reply.status)))
      ensures calls == old(calls) + QueryCalls(SearchEntries(base, filter, ScopeValue(scope), AttributeView(attributes), sorted),
                                               sorted, reply.chain.Some?)
    {
      var search, _ := WithCArrayOfString(heap, attributes, (v: View) => Success(SearchEntries(base, filter, ScopeValue(scope), v, sorted)));
      calls := calls + [search.value];
      if sorted {
        calls := calls + [FreeControl];
      }
      if reply.chain.Some? {
        r := Collect(reply.chain.value);
        calls := calls + [FreeMessages];
      } else {
        r := Thrown(errorText(reply.status));
      }
    }

    /**
     * The sort control half of `search`: the sort string is copied, parsed
     * into a key list and made a control, the key list and the copy are
     * released when the block is left (the key list first), and a non-zero
     * status throws its text.
     */
    method BuildSortControl(heap: Heap, sortedBy: string, reply: SearchReply) returns (failure: Option<string>)
      requires heap.Valid()
      modifies this`calls, heap
      ensures heap.Valid() && heap.blocks == old(heap.blocks)
      ensures failure == SortFailure(errorText, sortedBy, reply)
      ensures calls == old(calls) + SortCalls(sortedBy, reply)
    {
      if sortedBy == "" {
        return None;
      }
      var sortString := heap.Dup(Encode(sortedBy));
      calls := calls + [CreateSortKeyList(heap.blocks[sortString.address])];
      if reply.keyListStatus != 0 {
        heap.Free(sortString);
        return Some(errorText(reply.keyListStatus));
      }
      calls := calls + [CreateSortControl, FreeSortKeyList];
      heap.Free(sortString);
      if reply.controlStatus != 0 {
        return Some(errorText(reply.controlStatus));
      }
      return None;
    }

    /** `ResultSet(ldap:chain:).dictionary` of a returned chain. */
    method Collect(chain: seq<RawMessage>) returns (r: SearchOutcome)
      ensures r == ChainVerdict(transcoder, chain)
    {
      var rs := DecodeChain(transcoder, chain);
      if !AllValued(rs.attributeSet) {
        return Trapped;
      }
      var dic := Dictionary(rs);
      return Found(dic);
    }

    /**
     * `modAlloc(method:key:values:)`: one descriptor with the operation, a
     * copy of the attribute name, and `string(str:)` of every value, in
     * order, in a fresh null-terminated array.
     */
    method ModAlloc(op: int, key: string, values: seq<string>) returns (m: LdapMod)
      ensures fresh(m.values) && Describes(m, transcoder, op, key, values)
    {
      var pValues := Bervals(transcoder, values);
      var pointers := AsNullTerminatedPointers(pValues);
      m := LdapMod(op, CString(Encode(key)), pointers);
    }

    /**
     * The descriptors of `add` and `modify`: the keys of the dictionary in
     * some order (a Swift dictionary promises none), one `modAlloc` each,
     * gathered by `asUnsafeNullTerminatedPointers`.
     */
    method Descriptors(op: int, attributes: map<string, seq<string>>)
      returns (pMods: array<Cell?<LdapMod>>, mods: seq<LdapMod>, keys: seq<string>)
      ensures fresh(pMods) && Lends(pMods, mods) && DescribesAll(mods, transcoder, op, keys, attributes)
    {
      mods, keys := Allocate(op, attributes);
      pMods := AsNullTerminatedPointers(mods);
    }

    /** One `modAlloc` per key of the dictionary, in the order the keys are taken. */
    method Allocate(op: int, attributes: map<string, seq<string>>) returns (mods: seq<LdapMod>, keys: seq<string>)
      ensures DescribesAll(mods, transcoder, op, keys, attributes)
    {
      var remaining := attributes.Keys;
      mods, keys := [], [];
      while remaining != {}
        invariant |mods| == |keys|
        invariant forall k :: k in attributes <==> k in keys || k in remaining
        invariant forall k :: k in keys ==> k !in remaining
        invariant forall i, j :: 0 <= i < j < |keys| ==> keys[i] != keys[j]
        invariant |keys| + |remaining| == |attributes|
        invariant forall i :: 0 <= i < |keys| ==> Describes(mods[i], transcoder, op, keys[i], attributes[keys[i]])
        decreases |remaining|
      {
        var key :| key in remaining;
        mods, keys := AllocateOne(op, attributes, mods, keys, key);
        remaining := remaining - {key};
      }
    }

    /** One turn of the loop over the keys: `modAlloc` of `key`, appended after the earlier descriptors. */
    method AllocateOne(op: int, attributes: map<string, seq<string>>, mods: seq<LdapMod>, keys: seq<string>, key: string)
      returns (mods': seq<LdapMod>, keys': seq<string>)
      requires key in attributes && |mods| == |keys|
      requires forall i :: 0 <= i < |keys| ==> keys[i] in attributes && Describes(mods[i], transcoder, op, keys[i], attributes[keys[i]])
      ensures keys' == keys + [key] && |mods'| == |keys'| && mods'[..|mods|] == mods
      ensures forall i :: 0 <= i < |keys'| ==> Describes(mods'[i], transcoder, op, keys'[i], attributes[keys'[i]])
    {
      var m := ModAlloc(op, key, attributes[key]);
      mods', keys' := mods + [m], keys + [key];
      forall i | 0 <= i < |keys'|
        ensures Describes(mods'[i], transcoder, op, keys'[i], attributes[keys'[i]])
      {
        if i < |keys| {
          assert mods'[i] == mods[i] && keys'[i] == keys[i];
        }
      }
    }

    /**
     * `add(distinguishedName:attributes:)`: one ADD|BVALUES descriptor per
     * key, the add call, then the descriptors are freed before the status
     * is looked at.
     */
    method Add(distinguishedName: string, attributes: map<string, seq<string>>, status: int)
      returns (outcome: Outcome, ghost pMods: array<Cell?<LdapMod>>, ghost mods: seq<LdapMod>, ghost keys: seq<string>)
      modifies this`calls
      ensures outcome == Check(errorText, status)
      ensures calls == old(calls) + [AddEntry(distinguishedName, pMods), FreeMods(pMods)]
      ensures fresh(pMods) && Lends(pMods, mods) && Enumerates(keys, attributes) && |mods| == |keys|
      ensures forall i :: 0 <= i < |keys| ==> Describes(mods[i], transcoder, ADD_VALUES, keys[i], attributes[keys[i]])
    {
      var descriptors;
      descriptors, mods, keys := Descriptors(ADD_VALUES, attributes);
      Log([AddEntry(distinguishedName, descriptors), FreeMods(descriptors)]);
      pMods := descriptors;
      outcome := Check(errorText, status);
    }

    /**
     * `modify(distinguishedName:attributes:method:)`: as `add`, with the
     * caller's operation (REPLACE|BVALUES by default) and the modify call.
     */
    method Modify(distinguishedName: string, attributes: map<string, seq<string>>, status: int, op: int := REPLACE_VALUES)
      returns (outcome: Outcome, ghost pMods: array<Cell?<LdapMod>>, ghost mods: seq<LdapMod>, ghost keys: seq<string>)
      modifies this`calls
      ensures outcome == Check(errorText, status)
      ensures calls == old(calls) + [ModifyEntry(distinguishedName, pMods), FreeMods(pMods)]
      ensures fresh(pMods) && Lends(pMods, mods) && Enumerates(keys, attributes) && |mods| == |keys|
      ensures forall i :: 0 <= i < |keys| ==> Describes(mods[i], transcoder, op, keys[i], attributes[keys[i]])
    {
      var descriptors;
      descriptors, mods, keys := Descriptors(op, attributes);
      Log([ModifyEntry(distinguishedName, descriptors), FreeMods(descriptors)]);
      pMods := descriptors;
      outcome := Check(errorText, status);
    }

    /** Records library calls, in order. */
    method Log(entries: seq<Call>)
      modifies this`calls
      ensures calls == old(calls) + entries
    {
      calls := calls + entries;
    }

    /** `delete(distinguishedName:)`: one delete call; a non-zero status throws its text. */
    method Delete(distinguishedName: string, status: int) returns (outcome: Outcome)
      modifies this`calls
      ensures outcome == Check(errorText, status)
      ensures calls == old(calls) + [DeleteEntry(distinguishedName)]
    {
      calls := calls + [DeleteEntry(distinguishedName)];
      outcome := Check(errorText, status);
    }

    /** `deinit`: unbinds the handle. */
    method Close()
      modifies this`calls
      ensures calls == old(calls) + [Unbind]
    {
      calls := calls + [Unbind];
    }
  }
}
