/**
 * The older `LDAP` class of Sources/PerfectLDAP.swift.  It decodes search
 * results exactly as the newer one does (the `Messages` module), but lends
 * attribute lists with its own static `withCArrayOfString`, binds with a
 * username and password and answers a Bool, returns the whole result set
 * from `search` only when the status is 0 and a chain came back, and
 * swallows a code page converter that cannot be opened.
 */
module Legacy {
  import opened Common
  import opened Utf8
  import opened Memory
  import opened Transcoding
  import opened NullTerminated
  import opened Messages
  import opened Sasl
  import opened PerfectLdap

  /**
   * The credential the older `login` sends: the byte count of the whole
   * UTF-8 text as length, with a `ber_strdup` copy that ends at the first
   * NUL.  The length overstates the copy exactly when the password holds a NUL.
   */
  function LegacyCredential(password: string): (c: Credential)
    ensures c.len == |Encode(password)| && |password| <= c.len <= 4 * |password|
    ensures |c.val| <= c.len && c.val == Encode(password)[..|c.val|] && 0 !in c.val
    ensures |c.val| < c.len ==> Encode(password)[|c.val|] == 0
    ensures c.len > |c.val| <==> !NoNul(password)
  {
    EncodeNoNul(password);
    EncodeLength(password);
    Credential(|Encode(password)|, CString(Encode(password)))
  }

  /**
   * The two credentials agree exactly when the password holds no NUL:
   * otherwise the older one claims more bytes than its copy has.
   */
  lemma CredentialsAgree(password: string)
    ensures LegacyCredential(password) == SimpleCredential(password) <==> NoNul(password)
    ensures !NoNul(password) ==> LegacyCredential(password).len > |LegacyCredential(password).val|
  {
    EncodeNoNul(password);
    if NoNul(password) {
      CStringOfEncode(password);
    }
  }

  /** The result of the older `search`: the result set only for status 0 with a chain, else the status's text. */
  function LegacySearchVerdict(errorText: int -> string, t: Transcoder, status: int, chain: Option<seq<RawMessage>>): Result<ResultSet> {
    if status == 0 && chain.Some? then Success(ResultSetOf(t, chain.value)) else Failure(errorText(status))
  }

  /** The calls the older `search` makes: the search, then freeing the chain only when it is decoded. */
  function LegacySearchCalls(base: string, filter: string, scope: Scope, attributes: seq<string>,
                             status: int, chain: Option<seq<RawMessage>>): seq<Call> {
    [SearchEntries(base, filter, ScopeValue(scope), AttributeView(attributes), false)]
      + (if status == 0 && chain.Some? then [FreeMessages] else [])
  }

  /**
   * The older search succeeds exactly when the newer one is not thrown for
   * a missing chain and has status 0 — the newer one also answers a
   * non-zero status when a chain comes back, and the older one then
   * leaves that chain undecoded and unfreed.
   */
  lemma SearchVersions(errorText: int -> string, t: Transcoder, reply: SearchReply)
    ensures var older := LegacySearchVerdict(errorText, t, reply.status, reply.chain);
            var newer := SearchVerdict(errorText, t, "", reply);
            && (older.Success? <==> reply.status == 0 && !newer.Thrown?)
            && (older.Success? && AllValued(older.value.attributeSet) ==> newer == Found(DictionaryOf(older.value.attributeSet)))
            && (reply.chain.None? ==> older == Failure(errorText(reply.status)) && newer == Thrown(errorText(reply.status)))
  {
  }

  class LDAP {
    /** `iconv`: the converter from the server's code page, when one was opened. */
    const transcoder: Transcoder
    const errorText: int -> string
    var calls: seq<Call>

    constructor (transcoder: Transcoder, errorText: int -> string)
      ensures this.transcoder == transcoder && this.errorText == errorText && calls == []
    {
      this.transcoder := transcoder;
      this.errorText := errorText;
      calls := [];
    }

    /**
     * `LDAP.withCArrayOfString(array:operation:)`: an empty array lends nil;
     * otherwise every string is `strdup`ed into a slot, a nil slot follows,
     * the operation sees the copies, and every slot is then `free`d, the
     * nil one included.  The operation cannot throw, so nothing leaks.
     */
    static method WithCArrayOfString<R>(heap: Heap, strings: seq<string>, operation: View -> R)
      returns (r: R, ghost slots: seq<nat>)
      requires heap.Valid()
      modifies heap
      ensures heap.Valid() && heap.blocks == old(heap.blocks)
      ensures r == operation(AttributeView(strings))
      ensures |slots| == |strings| && Distinct(slots)
      ensures forall i :: 0 <= i < |slots| ==> slots[i] !in old(heap.blocks)
      ensures heap.freed == old(heap.freed) + slots
    {
      if strings == [] {
        r := operation(None);
        slots := [];
        return;
      }
      var parr;
      parr, slots := DupAll(heap, strings);
      assert Contents(heap.blocks, parr) == Copies(strings);
      r := operation(Some(Contents(heap.blocks, parr)));
      Restored(old(heap.blocks), heap.blocks, slots, strings);
      FreeAll(heap, parr, slots);
    }

    /**
     * `login(username:password:auth:)`: one simple bind, whatever `auth`
     * says, with a copy of the password that is released afterwards;
     * true exactly when the bind's status is 0.
     */
    method Login(heap: Heap, username: string, password: string, auth: AuthType := SIMPLE, status: int) returns (ok: bool)
      requires heap.Valid()
      modifies this`calls, heap
      ensures heap.Valid() && heap.blocks == old(heap.blocks)
      ensures ok <==> status == 0
      ensures calls == old(calls) + [SimpleBind(username, LegacyCredential(password))]
    {
      var copy := heap.Dup(Encode(password));
      var cred := Credential(|Encode(password)|, heap.blocks[copy.address]);
      calls := calls + [SimpleBind(username, cred)];
      heap.Free(copy);
      ok := status == 0;
    }

    /**
     * The older synchronous `search`: the attribute list is lent for the
     * search; unless the status is 0 and a chain came back the status's
     * text is thrown, otherwise the decoded chain is freed and returned.
     */
    method Search(heap: Heap, base: string := "", filter: string := "(objectclass=*)", scope: Scope := BASE,
                  attributes: seq<string> := [], status: int, chain: Option<seq<RawMessage>>) returns (r: Result<ResultSet>)
      requires heap.Valid()
      modifies this`calls, heap
      ensures heap.Valid() && heap.blocks == old(heap.blocks)
      ensures r == LegacySearchVerdict(errorText, transcoder, status, chain)
      ensures calls == old(calls) + LegacySearchCalls(base, filter, scope, attributes, status, chain)
    {
      var search, _ := WithCArrayOfString(heap, attributes, (v: View) => SearchEntries(base, filter, ScopeValue(scope), v, false));
      calls := calls + [search];
      if !(status == 0 && chain.Some?) {
        return Failure(errorText(status));
      }
      var rs := DecodeChain(transcoder, chain.value);
      calls := calls + [FreeMessages];
      return Success(rs);
    }

    /**
     * `init(url:username:password:auth:codePage:)`: a converter that
     * cannot be opened is dropped and the server is read as UTF-8; a
     * failing initialization throws its status's text; the login is made
     * only when both username and password are given, and a refused one
     * throws "Access Denied".  A throw still runs `deinit`, which unbinds
     * the handle; `session` is the call log of the object, ending with that
     * unbind when `init` throws.
     */
    static method Open(heap: Heap, url: string := "ldap://localhost", username: Option<string> := None,
                       password: Option<string> := None, auth: AuthType := SIMPLE, codePage: CodePage := UTF8,
                       errorText: int -> string, initStatus: int, bindStatus: int)
      returns (r: Result<LDAP>, ghost session: seq<Call>)
      requires heap.Valid()
      modifies heap
      ensures heap.Valid() && heap.blocks == old(heap.blocks)
      ensures initStatus != 0 ==> r == Failure(errorText(initStatus))
      ensures initStatus == 0 && (username.None? || password.None?) ==> r.Success?
      ensures initStatus == 0 && username.Some? && password.Some? ==>
        (r.Success? <==> bindStatus == 0) && (r.Failure? ==> r.message == "Access Denied")
      ensures r.Success? ==> fresh(r.value) && r.value.errorText == errorText
      ensures r.Success? ==> r.value.transcoder ==
                               (if codePage.Foreign? && codePage.decoder.Success?
                                then Transcoder(Some(codePage.decoder.value), None) else Utf8Server)
      ensures r.Success? ==> r.value.calls == [Initialize(url)] +
                               (if username.Some? && password.Some?
                                then [SimpleBind(username.value, LegacyCredential(password.value))] else [])
      ensures r.Success? ==> session == r.value.calls
      ensures initStatus != 0 ==> session == [Initialize(url), Unbind]
      ensures r.Failure? && initStatus == 0 ==>
        username.Some? && password.Some? &&
        session == [Initialize(url), SimpleBind(username.value, LegacyCredential(password.value)), Unbind]
    {
      var transcoder := Utf8Server;
      if codePage.Foreign? && codePage.decoder.Success? {
        transcoder := Transcoder(Some(codePage.decoder.value), None);
      }
      var ldap := new LDAP(transcoder, errorText);
      ldap.calls := ldap.calls + [Initialize(url)];
      if initStatus != 0 {
        ldap.Close();
        return Failure(errorText(initStatus)), ldap.calls;
      }
      if username.None? || password.None? {
        return Success(ldap), ldap.calls;
      }
      var ok := ldap.Login(heap, username.value, password.value, auth, bindStatus);
      if !ok {
        ldap.Close();
        return Failure("Access Denied"), ldap.calls;
      }
      r, session := Success(ldap), ldap.calls;
    }

    /** `deinit`: unbinds the handle. */
    method Close()
      modifies this`calls
      ensures calls == old(calls) + [Unbind]
    {
      calls := calls + [Unbind];
    }
  }
}
