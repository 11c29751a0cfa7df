/**
 * Decoding a search response (`LDAP.ResultSet.init(ldap:chain:)` and the
 * records `Attribute`, `AttributeSet`, `Reference`, `Result`) and the
 * `ResultSet.dictionary` projection.  The two copies of the class decode
 * identically; the lines cited are those of
 * Sources/PerfectLDAP/PerfectLDAP.swift.
 *
 * The message chain is what `ldap_first_message` / `ldap_next_message`
 * walk, each message already taken apart the way the library's accessors
 * report it; the accessors themselves are foreign.
 */
module Messages {
  import opened Common
  import opened Utf8
  import opened Transcoding

  /**
   * One attribute of an entry: its name as `String(cString:)` reads the tag
   * of `ldap_first_attribute` / `ldap_next_attribute`, and the berval list
   * of `ldap_get_values_len` (None when it is nil).
   */
  datatype RawAttribute = RawAttribute(tag: string, values: Option<seq<Bytes>>)

  /** What a successful `ldap_parse_result` hands back: matched DN, error text, referrals (nil = None). */
  datatype ParsedResult = ParsedResult(matched: Option<Bytes>, errMsg: Option<Bytes>, referrals: Option<seq<Bytes>>)

  /**
   * One message of the chain, by its `ldap_msgtype`:
   *  - an entry (LDAP_RES_SEARCH_ENTRY, 0x64): `ldap_get_dn` (None when it fails) and its attributes in order;
   *  - a reference (LDAP_RES_SEARCH_REFERENCE, 0x73): the referral list of `ldap_parse_reference`, None when parsing fails;
   *  - a result (LDAP_RES_SEARCH_RESULT, 0x65): the code `ldap_parse_result` wrote and, if parsing succeeded, the rest;
   *  - any other type (intermediate or extended responses).
   */
  datatype RawMessage =
    | EntryMessage(dn: Option<Bytes>, attributes: seq<RawAttribute>)
    | ReferenceMessage(referrals: Option<seq<Bytes>>)
    | ResultMessage(errCode: int, parsed: Option<ParsedResult>)
    | OtherMessage(msgtype: int)

  // ---------------------------------------------------------------------
  // Decoded records

  datatype Attribute = Attribute(name: string, values: seq<string>)

  datatype AttributeSet = AttributeSet(name: string, attributes: seq<Attribute>)

  datatype Reference = Reference(values: seq<string>)

  datatype LdapResult = LdapResult(errCode: int, errMsg: string, matched: string, referrals: seq<string>)

  datatype ResultSet = ResultSet(attributeSet: seq<AttributeSet>, references: seq<Reference>, results: seq<LdapResult>)

  // ---------------------------------------------------------------------
  // Reference definitions of the decoders

  /** `string(ber:)` of every berval. */
  function BerStrings(t: Transcoder, bs: seq<Bytes>): (r: seq<string>)
    ensures |r| == |bs|
  {
    seq(|bs|, i requires 0 <= i < |bs| => StringOfBer(t, bs[i]))
  }

  /** `string(pstr:)` of every C string. */
  function PstrStrings(t: Transcoder, ps: seq<Bytes>): (r: seq<string>)
    ensures |r| == |ps|
  {
    seq(|ps|, i requires 0 <= i < |ps| => StringOfPstr(t, ps[i]))
  }

  function AttributeOf(t: Transcoder, a: RawAttribute): Attribute {
    Attribute(a.tag, BerStrings(t, a.values.GetOr([])))
  }

  function EntryOf(t: Transcoder, dn: Option<Bytes>, attributes: seq<RawAttribute>): AttributeSet {
    match dn
    case None => AttributeSet("", [])
    case Some(d) => AttributeSet(StringOfPstr(t, d), seq(|attributes|, i requires 0 <= i < |attributes| => AttributeOf(t, attributes[i])))
  }

  function ReferenceOf(t: Transcoder, referrals: Option<seq<Bytes>>): Reference {
    Reference(PstrStrings(t, referrals.GetOr([])))
  }

  function OptionalPstr(t: Transcoder, p: Option<Bytes>): string {
    match p
    case None => ""
    case Some(s) => StringOfPstr(t, s)
  }

  function ResultOf(t: Transcoder, errCode: int, parsed: Option<ParsedResult>): LdapResult {
    match parsed
    case None => LdapResult(errCode, "", "", [])
    case Some(p) => LdapResult(errCode, OptionalPstr(t, p.errMsg), OptionalPstr(t, p.matched), PstrStrings(t, p.referrals.GetOr([])))
  }

  /** One turn of the `ResultSet.init` loop: the message goes to the end of its list, or nowhere. */
  function Classify(t: Transcoder, rs: ResultSet, m: RawMessage): ResultSet {
    match m
    case EntryMessage(dn, attributes) => rs.(attributeSet := rs.attributeSet + [EntryOf(t, dn, attributes)])
    case ReferenceMessage(referrals) => rs.(references := rs.references + [ReferenceOf(t, referrals)])
    case ResultMessage(code, parsed) => rs.(results := rs.results + [ResultOf(t, code, parsed)])
    case OtherMessage(_) => rs
  }

  const EmptySet: ResultSet := ResultSet([], [], [])

  /** The result set decoded from a chain. */
  function ResultSetOf(t: Transcoder, chain: seq<RawMessage>): ResultSet {
    if chain == [] then EmptySet
    else Classify(t, ResultSetOf(t, chain[..|chain| - 1]), chain[|chain| - 1])
  }

  // ---------------------------------------------------------------------
  // The decoders, as the source's cursor loops

  /**
   * `Attribute.init(ldap:entry:tag:)`: the name, then `string(ber:)` of
   * every value in list order; a nil value list gives no values.
   */
  method DecodeAttribute(t: Transcoder, a: RawAttribute) returns (r: Attribute)
    ensures r == AttributeOf(t, a)
    ensures r.name == a.tag
    ensures a.values.None? ==> r.values == []
    ensures a.values.Some? ==> |r.values| == |a.values.value|
    ensures a.values.Some? ==> forall i :: 0 <= i < |r.values| ==> r.values[i] == StringOfBer(t, a.values.value[i])
  {
    var values: seq<string> := [];
    var valueSet := a.values.GetOr([]);
    var cursor := 0;
    while cursor < |valueSet|
      invariant cursor <= |valueSet|
      invariant values == BerStrings(t, valueSet[..cursor])
    {
      values := values + [StringOfBer(t, valueSet[cursor])];
      cursor := cursor + 1;
    }
    assert valueSet[..cursor] == valueSet;
    r := Attribute(a.tag, values);
  }

  /**
   * `AttributeSet.init(ldap:entry:)`: an entry whose DN cannot be read is
   * kept with an empty name and no attributes; otherwise its name is the DN
   * and its attributes are decoded in the order the library lists them.
   */
  method DecodeEntry(t: Transcoder, dn: Option<Bytes>, attributes: seq<RawAttribute>) returns (r: AttributeSet)
    ensures r == EntryOf(t, dn, attributes)
    ensures dn.None? ==> r == AttributeSet("", [])
    ensures dn.Some? ==> r.name == StringOfPstr(t, dn.value) && |r.attributes| == |attributes|
    ensures dn.Some? ==> forall i :: 0 <= i < |attributes| ==> r.attributes[i].name == attributes[i].tag
  {
    if dn.None? {
      return AttributeSet("", []);
    }
    var decoded: seq<Attribute> := [];
    var a := 0;
    while a < |attributes|
      invariant a <= |attributes|
      invariant |decoded| == a
      invariant forall i :: 0 <= i < a ==> decoded[i] == AttributeOf(t, attributes[i])
    {
      var attribute := DecodeAttribute(t, attributes[a]);
      decoded := decoded + [attribute];
      a := a + 1;
    }
    r := AttributeSet(StringOfPstr(t, dn.value), decoded);
  }

  /** `Reference.init(ldap:reference:)`: the referrals in order; none when parsing fails. */
  method DecodeReference(t: Transcoder, referrals: Option<seq<Bytes>>) returns (r: Reference)
    ensures r == ReferenceOf(t, referrals)
    ensures referrals.None? ==> r.values == []
    ensures referrals.Some? ==> |r.values| == |referrals.value|
  {
    if referrals.None? {
      return Reference([]);
    }
    var values: seq<string> := [];
    var cursor := 0;
    while cursor < |referrals.value|
      invariant cursor <= |referrals.value|
      invariant values == PstrStrings(t, referrals.value[..cursor])
    {
      values := values + [StringOfPstr(t, referrals.value[cursor])];
      cursor := cursor + 1;
    }
    assert referrals.value[..cursor] == referrals.value;
    r := Reference(values);
  }

  /**
   * `Result.init(ldap:result:)`: the code is whatever `ldap_parse_result`
   * wrote, even when parsing fails; a failed parse leaves matched DN, error
   * text and referrals empty, and so does each part the library left nil.
   */
  method DecodeResult(t: Transcoder, errCode: int, parsed: Option<ParsedResult>) returns (r: LdapResult)
    ensures r == ResultOf(t, errCode, parsed)
    ensures r.errCode == errCode
    ensures parsed.None? ==> r == LdapResult(errCode, "", "", [])
    ensures parsed.Some? ==> (parsed.value.matched.None? ==> r.matched == "") && (parsed.value.errMsg.None? ==> r.errMsg == "")
  {
    if parsed.None? {
      return LdapResult(errCode, "", "", []);
    }
    var p := parsed.value;
    var matched := "";
    if p.matched.Some? {
      matched := StringOfPstr(t, p.matched.value);
    }
    var errMsg := "";
    if p.errMsg.Some? {
      errMsg := StringOfPstr(t, p.errMsg.value);
    }
    var ref: seq<string> := [];
    var rf := p.referrals.GetOr([]);
    var cursor := 0;
    while cursor < |rf|
      invariant cursor <= |rf|
      invariant ref == PstrStrings(t, rf[..cursor])
    {
      ref := ref + [StringOfPstr(t, rf[cursor])];
      cursor := cursor + 1;
    }
    assert rf[..cursor] == rf;
    r := LdapResult(errCode, errMsg, matched, ref);
  }

  /**
   * `ResultSet.init(ldap:chain:)`: walks the chain once, appending each
   * entry, reference and result to its own list and skipping every other
   * kind of message.
   */
  method DecodeChain(t: Transcoder, chain: seq<RawMessage>) returns (rs: ResultSet)
    ensures rs == ResultSetOf(t, chain)
  {
    var attr: seq<AttributeSet> := [];
    var ref: seq<Reference> := [];
    var results: seq<LdapResult> := [];
    var m := 0;
    while m < |chain|
      invariant m <= |chain|
      invariant ResultSet(attr, ref, results) == ResultSetOf(t, chain[..m])
    {
      assert chain[..m + 1][..m] == chain[..m];
      match chain[m] {
        case EntryMessage(dn, attributes) =>
          var entry := DecodeEntry(t, dn, attributes);
          attr := attr + [entry];
        case ReferenceMessage(referrals) =>
          var reference := DecodeReference(t, referrals);
          ref := ref + [reference];
        case ResultMessage(code, parsed) =>
          var result := DecodeResult(t, code, parsed);
          results := results + [result];
        case OtherMessage(_) =>
      }
      m := m + 1;
    }
    assert chain[..m] == chain;
    rs := ResultSet(attr, ref, results);
  }

  // ---------------------------------------------------------------------
  // Properties of the decoded chain

  function Concat(a: ResultSet, b: ResultSet): ResultSet {
    ResultSet(a.attributeSet + b.attributeSet, a.references + b.references, a.results + b.results)
  }

  function CountEntries(chain: seq<RawMessage>): nat {
    if chain == [] then 0 else CountEntries(chain[..|chain| - 1]) + (if chain[|chain| - 1].EntryMessage? then 1 else 0)
  }

  function CountReferences(chain: seq<RawMessage>): nat {
    if chain == [] then 0 else CountReferences(chain[..|chain| - 1]) + (if chain[|chain| - 1].ReferenceMessage? then 1 else 0)
  }

  function CountResults(chain: seq<RawMessage>): nat {
    if chain == [] then 0 else CountResults(chain[..|chain| - 1]) + (if chain[|chain| - 1].ResultMessage? then 1 else 0)
  }

  function CountOthers(chain: seq<RawMessage>): nat {
    if chain == [] then 0 else CountOthers(chain[..|chain| - 1]) + (if chain[|chain| - 1].OtherMessage? then 1 else 0)
  }

  /** Decoding a chain in two pieces gives the pieces' lists, each in order, one after the other. */
  lemma {:induction false} ResultSetOfAppend(t: Transcoder, c1: seq<RawMessage>, c2: seq<RawMessage>)
    ensures ResultSetOf(t, c1 + c2) == Concat(ResultSetOf(t, c1), ResultSetOf(t, c2))
    decreases |c2|
  {
    if c2 == [] {
      assert c1 + c2 == c1;
    } else {
      var c, init, last := c1 + c2, c2[..|c2| - 1], c2[|c2| - 1];
      assert c[..|c| - 1] == c1 + init && c[|c| - 1] == last;
      ResultSetOfAppend(t, c1, init);
      ClassifyConcat(t, ResultSetOf(t, c1), ResultSetOf(t, init), last);
    }
  }

  /** Classifying after a concatenation adds to the second part only. */
  lemma ClassifyConcat(t: Transcoder, a: ResultSet, b: ResultSet, m: RawMessage)
    ensures Classify(t, Concat(a, b), m) == Concat(a, Classify(t, b, m))
  {
    match m
    case EntryMessage(dn, attributes) =>
      assert a.attributeSet + b.attributeSet + [EntryOf(t, dn, attributes)] == a.attributeSet + (b.attributeSet + [EntryOf(t, dn, attributes)]);
    case ReferenceMessage(referrals) =>
      assert a.references + b.references + [ReferenceOf(t, referrals)] == a.references + (b.references + [ReferenceOf(t, referrals)]);
    case ResultMessage(code, parsed) =>
      assert a.results + b.results + [ResultOf(t, code, parsed)] == a.results + (b.results + [ResultOf(t, code, parsed)]);
    case OtherMessage(_) =>
  }

  /** Every entry, reference and result lands in its list and each other message is dropped: the lengths add up. */
  lemma {:induction false} ResultSetSizes(t: Transcoder, chain: seq<RawMessage>)
    ensures |ResultSetOf(t, chain).attributeSet| == CountEntries(chain)
    ensures |ResultSetOf(t, chain).references| == CountReferences(chain)
    ensures |ResultSetOf(t, chain).results| == CountResults(chain)
    ensures CountEntries(chain) + CountReferences(chain) + CountResults(chain) + CountOthers(chain) == |chain|
    ensures |ResultSetOf(t, chain).attributeSet| + |ResultSetOf(t, chain).references| + |ResultSetOf(t, chain).results| <= |chain|
  {
    if chain != [] {
      ResultSetSizes(t, chain[..|chain| - 1]);
    }
  }

  /**
   * Order is kept: the entry message at position `i` of the chain is decoded
   * into the attribute set whose index is the number of entries before it.
   */
  lemma EntryAt(t: Transcoder, chain: seq<RawMessage>, i: nat)
    requires i < |chain| && chain[i].EntryMessage?
    ensures CountEntries(chain[..i]) < |ResultSetOf(t, chain).attributeSet|
    ensures ResultSetOf(t, chain).attributeSet[CountEntries(chain[..i])] == EntryOf(t, chain[i].dn, chain[i].attributes)
  {
    var before, here, after := chain[..i], chain[i..i + 1], chain[i + 1..];
    assert chain == before + here + after;
    ResultSetOfAppend(t, before + here, after);
    ResultSetOfAppend(t, before, here);
    ResultSetSizes(t, before);
    assert ResultSetOf(t, here) == ResultSet([EntryOf(t, chain[i].dn, chain[i].attributes)], [], []) by {
      assert here[..0] == [];
    }
  }

  /** The same for references. */
  lemma ReferenceAt(t: Transcoder, chain: seq<RawMessage>, i: nat)
    requires i < |chain| && chain[i].ReferenceMessage?
    ensures CountReferences(chain[..i]) < |ResultSetOf(t, chain).references|
    ensures ResultSetOf(t, chain).references[CountReferences(chain[..i])] == ReferenceOf(t, chain[i].referrals)
  {
    var before, here, after := chain[..i], chain[i..i + 1], chain[i + 1..];
    assert chain == before + here + after;
    ResultSetOfAppend(t, before + here, after);
    ResultSetOfAppend(t, before, here);
    ResultSetSizes(t, before);
    assert ResultSetOf(t, here) == ResultSet([], [ReferenceOf(t, chain[i].referrals)], []) by {
      assert here[..0] == [];
    }
  }

  /** The same for results. */
  lemma ResultAt(t: Transcoder, chain: seq<RawMessage>, i: nat)
    requires i < |chain| && chain[i].ResultMessage?
    ensures CountResults(chain[..i]) < |ResultSetOf(t, chain).results|
    ensures ResultSetOf(t, chain).results[CountResults(chain[..i])] == ResultOf(t, chain[i].errCode, chain[i].parsed)
  {
    var before, here, after := chain[..i], chain[i..i + 1], chain[i + 1..];
    assert chain == before + here + after;
    ResultSetOfAppend(t, before + here, after);
    ResultSetOfAppend(t, before, here);
    ResultSetSizes(t, before);
    assert ResultSetOf(t, here) == ResultSet([], [], [ResultOf(t, chain[i].errCode, chain[i].parsed)]) by {
      assert here[..0] == [];
    }
  }

  /** Messages of other types leave no trace: removing one does not change the decoded set. */
  lemma OtherDropped(t: Transcoder, c1: seq<RawMessage>, other: int, c2: seq<RawMessage>)
    ensures ResultSetOf(t, c1 + [OtherMessage(other)] + c2) == ResultSetOf(t, c1 + c2)
  {
    ResultSetOfAppend(t, c1 + [OtherMessage(other)], c2);
    ResultSetOfAppend(t, c1, [OtherMessage(other)]);
    ResultSetOfAppend(t, c1, c2);
    assert [OtherMessage(other)][..0] == [];
  }

  // ---------------------------------------------------------------------
  // The dictionary projection

  /** An entry of the inner dictionary: a single value as a string, several as an array. */
  datatype Value = Scalar(value: string) | Multiple(values: seq<string>)

  function Values(v: Value): seq<string> {
    match v
    case Scalar(s) => [s]
    case Multiple(vs) => vs
  }

  /**
   * The inner dictionary's value for one attribute: the array when there is
   * more than one value, otherwise `values[0]` (which traps on no values).
   */
  function ValueOf(a: Attribute): (v: Value)
    requires |a.values| >= 1
    ensures Values(v) == a.values
    ensures v.Scalar? <==> |a.values| == 1
  {
    if |a.values| > 1 then Multiple(a.values) else Scalar(a.values[0])
  }

  predicate Valued(attributes: seq<Attribute>) {
    forall j :: 0 <= j < |attributes| ==> |attributes[j].values| >= 1
  }

  /** Every attribute of every entry has a value: `dictionary` does not trap. */
  predicate AllValued(sets: seq<AttributeSet>) {
    forall i :: 0 <= i < |sets| ==> Valued(sets[i].attributes)
  }

  /** The inner dictionary of one entry: later attributes overwrite earlier ones of the same name. */
  function AttributeMap(attributes: seq<Attribute>): map<string, Value>
    requires Valued(attributes)
  {
    if attributes == [] then map[]
    else
      var last := attributes[|attributes| - 1];
      AttributeMap(attributes[..|attributes| - 1])[last.name := ValueOf(last)]
  }

  /** The outer dictionary: later entries overwrite earlier ones of the same DN. */
  function DictionaryOf(sets: seq<AttributeSet>): map<string, map<string, Value>>
    requires AllValued(sets)
  {
    if sets == [] then map[]
    else
      var last := sets[|sets| - 1];
      DictionaryOf(sets[..|sets| - 1])[last.name := AttributeMap(last.attributes)]
  }

  /** `ResultSet.dictionary`: the outer loop fills `dic` with each entry's inner dictionary, later DNs winning. */
  method Dictionary(rs: ResultSet) returns (dic: map<string, map<string, Value>>)
    requires AllValued(rs.attributeSet)
    ensures dic == DictionaryOf(rs.attributeSet)
  {
    var sets := rs.attributeSet;
    dic := map[];
    for i := 0 to |sets|
      invariant AllValued(sets[..i])
      invariant dic == DictionaryOf(sets[..i])
    {
      var aset := sets[i];
      var d := InnerDictionary(aset.attributes);
      dic := dic[aset.name := d];
      assert sets[..i + 1][..i] == sets[..i];
    }
    assert sets[..|sets|] == sets;
  }

  /** The inner loop of `ResultSet.dictionary`: the array for several values, `values[0]` for one. */
  method InnerDictionary(attributes: seq<Attribute>) returns (d: map<string, Value>)
    requires Valued(attributes)
    ensures d == AttributeMap(attributes)
  {
    d := map[];
    for j := 0 to |attributes|
      invariant Valued(attributes[..j])
      invariant d == AttributeMap(attributes[..j])
    {
      var a := attributes[j];
      if |a.values| > 1 {
        d := d[a.name := Multiple(a.values)];
      } else {
        d := d[a.name := Scalar(a.values[0])];
      }
      assert attributes[..j + 1][..j] == attributes[..j];
    }
    assert attributes[..|attributes|] == attributes;
  }

  /** The inner dictionary has exactly the attribute names as keys. */
  lemma {:induction false} AttributeMapKeys(attributes: seq<Attribute>)
    requires Valued(attributes)
    ensures AttributeMap(attributes).Keys == set j | 0 <= j < |attributes| :: attributes[j].name
  {
    if attributes != [] {
      var init := attributes[..|attributes| - 1];
      AttributeMapKeys(init);
      assert forall j :: 0 <= j < |init| ==> init[j] == attributes[j];
    }
  }

  /** The value kept for a name is that of its last attribute. */
  lemma {:induction false} AttributeMapLastWins(attributes: seq<Attribute>, j: nat)
    requires Valued(attributes)
    requires j < |attributes|
    requires forall l :: j < l < |attributes| ==> attributes[l].name != attributes[j].name
    ensures attributes[j].name in AttributeMap(attributes)
    ensures AttributeMap(attributes)[attributes[j].name] == ValueOf(attributes[j])
  {
    if j < |attributes| - 1 {
      var init := attributes[..|attributes| - 1];
      assert init[j] == attributes[j];
      AttributeMapLastWins(init, j);
    }
  }

  /** The outer dictionary has exactly the entries' names as keys. */
  lemma {:induction false} DictionaryKeys(sets: seq<AttributeSet>)
    requires AllValued(sets)
    ensures DictionaryOf(sets).Keys == set i | 0 <= i < |sets| :: sets[i].name
  {
    if sets != [] {
      var init := sets[..|sets| - 1];
      assert AllValued(init);
      DictionaryKeys(init);
      assert forall i :: 0 <= i < |init| ==> init[i] == sets[i];
    }
  }

  /** The inner dictionary kept for a DN is that of the last entry with that DN. */
  lemma {:induction false} DictionaryLastWins(sets: seq<AttributeSet>, i: nat)
    requires AllValued(sets)
    requires i < |sets|
    requires forall l :: i < l < |sets| ==> sets[l].name != sets[i].name
    ensures sets[i].name in DictionaryOf(sets)
    ensures DictionaryOf(sets)[sets[i].name] == AttributeMap(sets[i].attributes)
  {
    if i < |sets| - 1 {
      var init := sets[..|sets| - 1];
      assert init[i] == sets[i];
      assert AllValued(init);
      DictionaryLastWins(init, i);
    }
  }

  /**
   * The projection traps on a reachable input: an entry with an attribute
   * whose value list is nil decodes to an attribute without values.
   */
  lemma NilValuesNotValued(t: Transcoder, dn: Bytes, tag: string)
    ensures !AllValued(ResultSetOf(t, [EntryMessage(Some(dn), [RawAttribute(tag, None)])]).attributeSet)
  {
    var chain := [EntryMessage(Some(dn), [RawAttribute(tag, None)])];
    assert chain[..0] == [];
    var entry := EntryOf(t, Some(dn), [RawAttribute(tag, None)]);
    assert ResultSetOf(t, chain) == ResultSet([entry], [], []);
    assert entry.attributes[0] == AttributeOf(t, RawAttribute(tag, None));
    assert !Valued(entry.attributes);
    assert ResultSetOf(t, chain).attributeSet[0] == entry;
  }
}
