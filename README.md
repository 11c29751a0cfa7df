# Perfect-LDAP, modelled in Dafny

Perfect-LDAP is a Swift wrapper around the OpenLDAP client library. An
`LDAP` object opens a session (optionally in a server code page other
than UTF-8), logs in with a simple bind or an interactive SASL bind,
searches (optionally with a server-side sort control) and turns the
returned message chain into a result set and a dictionary, and adds,
modifies and deletes entries. This project models the core of the current
version (`Sources/PerfectLDAP/PerfectLDAP.swift`,
`Sources/PerfectLDAP/Utilities.swift`) and of the older single-file
version (`Sources/PerfectLDAP.swift`), and proves properties of that
model.

Modules (one per concern, imports only between them):

- `Common` — `Option`, `Result`, `Outcome` (a call that returns nothing or
  throws a message) and `Ptr` (a C pointer: nil or an address).
- `Utf8` — bytes, the UTF-8 encoding Swift's `utf8` view yields and the
  validating decoder `String(validatingUTF8:)` applies, with their round
  trips; `CString`, the bytes a C string function sees before the first NUL.
- `Memory` — a `Heap` class for the C allocations the wrapper makes
  (`ber_strdup`/`strdup` add a block holding the C-string copy,
  `ber_memfree`/`free` remove it and log its address).
- `Transcoding` — `string(ber:)`, `string(pstr:)`, `string(str:)` and
  `Iconv.convert(from:)`, with the iconv converters as function values.
- `SortControl` — `sortingString(sortedBy:)`, a reference definition and
  its inverse, the key-list parser.
- `NullTerminated` — `asUnsafeNullTerminatedPointers()` over an array of
  one-element `Cell`s, and the top-level `withCArrayOfString`, which lends
  a `char **` of copies to a closure.
- `Messages` — the decoding of a search's message chain into `Attribute`,
  `AttributeSet`, `Reference`, `Result` and `ResultSet` records, and
  `ResultSet.dictionary`. Both versions decode identically
  (`Sources/PerfectLDAP.swift` lines 232-438 match
  `Sources/PerfectLDAP/PerfectLDAP.swift` lines 384-590), so both use this
  module.
- `Sasl` — the `Login` class with its `trashcan`, `deinit`, and the SASL
  interaction callback of `login(info:)`.
- `PerfectLdap` — the current `LDAP` class: `init`, `login(info:)`,
  `search`, `modAlloc`, `add`, `modify`, `delete`, `deinit`.
- `Legacy` — the older `LDAP` class: its static `withCArrayOfString`,
  `init`, `login(username:password:auth:)` returning a Bool, `search`
  returning the result set, `deinit`.

What OpenLDAP answers is given to each operation as a parameter: the
status of a call, the message chain of a search (a sequence of
`RawMessage`s, each holding what the `ldap_get_*`/`ldap_parse_*`
accessors return for it), and the rounds of questions an interactive bind
puts to the callback. `ldap_err2string` is the session's `errorText`
function. Each `LDAP` object records, in `calls`, every call it makes into
the library with the arguments it hands over, so the contracts state both
the result and the exact call sequence. The `Heap` records the C copies
whose lifetime the wrapper manages itself: the `ber_strdup` copies of
the password, of the sort string and of the SASL answers, and the lent
attribute lists. The contracts state which of these are released and
which are kept or leaked. The memory behind an `LDAPMod` array is not on
the `Heap` (see "Left out").

## Model

| member | source | states |
|---|---|---|
| Utf8.DecodeEncode | Sources/PerfectLDAP/PerfectLDAP.swift:176-181 | the validating decoder reads back every text from its UTF-8 bytes |
| Utf8.EncodeDecode | Sources/PerfectLDAP/PerfectLDAP.swift:176-181 | bytes the decoder accepts are exactly the UTF-8 of the text it yields |
| Utf8.EncodeNoNul | Sources/PerfectLDAP/PerfectLDAP.swift:199-209 | the UTF-8 of a text holds a NUL byte if and only if the text holds U+0000 |
| Utf8.CStringOfEncode | Sources/PerfectLDAP/PerfectLDAP.swift:199-209 | for a NUL-free text the C-string copy is the whole UTF-8 and `strlen` is its byte count |
| Utf8.EncodeLength | Sources/PerfectLDAP/PerfectLDAP.swift:199-209 | the UTF-8 byte count lies between the Unicode scalar count and four times it |
| Transcoding.StringOfBerExactOrEmpty | Sources/PerfectLDAP/PerfectLDAP.swift:176-181 | without a converter a counted string reads as the text of its bytes before the first NUL, or "" when those are not UTF-8 |
| Transcoding.BervalBufferMatchesLength | Sources/PerfectLDAP/PerfectLDAP.swift:199-209 | without a converter `string(str:)` always yields a buffer, its length is the UTF-8 count, and the buffer holds that many bytes exactly when the text has no U+0000 |
| Transcoding.Utf8RoundTrip | Sources/PerfectLDAP/PerfectLDAP.swift:176-209 | without a converter a NUL-free text written by `string(str:)` reads back unchanged through `string(ber:)` |
| Transcoding.CodePageRoundTrip | Sources/PerfectLDAP/Utilities.swift:32-40 | with a code page, `string(str:)` yields the converter's buffer and size, and `convert(from:)` reads the text back whenever the two converters undo each other |
| SortControl.SortingStringIsJoin | Sources/PerfectLDAP/PerfectLDAP.swift:604-609 | the sort string is the keys' tokens (`-` before a descending field) joined by single spaces, in input order; no keys give ""; leading empty tokens vanish with their separators |
| SortControl.FoldFromEmpty | Sources/PerfectLDAP/PerfectLDAP.swift:605-608 | the reduce from "" equals the join of the tokens after the leading empty ones |
| SortControl.SortingStringRoundTrip | Sources/PerfectLDAP/PerfectLDAP.swift:604-609 | for non-empty fields without spaces or a leading `-`, parsing the sort string gives back exactly the keys and their orders |
| SortControl.SplitJoin | Sources/PerfectLDAP/PerfectLDAP.swift:604-609 | splitting the space-joined tokens at spaces gives back the tokens |
| NullTerminated.AsNullTerminatedPointers | Sources/PerfectLDAP/Utilities.swift:49-58 | a fresh array of count + 1 slots; slot i is a fresh cell of its own holding element i, the last slot is nil |
| NullTerminated.DupAll | Sources/PerfectLDAP/Utilities.swift:67-72 | one fresh C-string copy per string, in order, then a nil slot; nothing already allocated changes |
| NullTerminated.FreeAll | Sources/PerfectLDAP/Utilities.swift:77-78 | every slot is released, in slot order, the nil one as a no-op; exactly the copies disappear |
| NullTerminated.WithCArrayOfString | Sources/PerfectLDAP/Utilities.swift:61-81 | an empty array lends nil and allocates nothing; otherwise the body sees the copies then nil and its result is passed through; a normal return releases every copy, a throw leaks them all |
| Messages.DecodeAttribute | Sources/PerfectLDAP/PerfectLDAP.swift:384-399 | the attribute's name is its tag, its values are `string(ber:)` of each value in order, and no value set gives no values |
| Messages.DecodeEntry | Sources/PerfectLDAP/PerfectLDAP.swift:421-435 | a missing DN gives an empty unnamed set; otherwise the DN read by `string(pstr:)` and one attribute per tag, in order |
| Messages.DecodeReference | Sources/PerfectLDAP/PerfectLDAP.swift:451-469 | a failed parse gives no values; otherwise one value per referral, in order |
| Messages.DecodeResult | Sources/PerfectLDAP/PerfectLDAP.swift:503-531 | the error code is always the library's; a failed parse leaves every text empty; absent matched DN or message read as "" |
| Messages.DecodeChain | Sources/PerfectLDAP/PerfectLDAP.swift:575-590 | the walk over the chain builds exactly the result set of the chain's messages |
| Messages.ResultSetOfAppend | Sources/PerfectLDAP/PerfectLDAP.swift:575-590 | the result set of two chains one after the other is the two result sets concatenated list by list |
| Messages.ResultSetSizes | Sources/PerfectLDAP/PerfectLDAP.swift:575-590 | one entry set per entry message, one reference per reference message, one result per result message, and other messages add nothing |
| Messages.EntryAt | Sources/PerfectLDAP/PerfectLDAP.swift:578-580 | the i-th message, an entry, is decoded at the position counting the entries before it |
| Messages.ReferenceAt | Sources/PerfectLDAP/PerfectLDAP.swift:581-582 | the i-th message, a reference, is decoded at the position counting the references before it |
| Messages.ResultAt | Sources/PerfectLDAP/PerfectLDAP.swift:583-584 | the i-th message, a result, is decoded at the position counting the results before it |
| Messages.OtherDropped | Sources/PerfectLDAP/PerfectLDAP.swift:585-586 | a message of any other type leaves the result set as if it were absent |
| Messages.ValueOf | Sources/PerfectLDAP/PerfectLDAP.swift:548-552 | several values map to the list, one value to that single string, and either way the values are kept |
| Messages.Dictionary | Sources/PerfectLDAP/PerfectLDAP.swift:543-557 | the nested loops build exactly the dictionary of the entry sets |
| Messages.InnerDictionary | Sources/PerfectLDAP/PerfectLDAP.swift:546-553 | the inner loop builds exactly the attribute map of one entry: the array for several values, the first value for one |
| Messages.AttributeMapKeys | Sources/PerfectLDAP/PerfectLDAP.swift:546-553 | an entry's inner dictionary has exactly its attribute names as keys |
| Messages.AttributeMapLastWins | Sources/PerfectLDAP/PerfectLDAP.swift:546-553 | a repeated attribute name keeps the value of its last occurrence |
| Messages.DictionaryKeys | Sources/PerfectLDAP/PerfectLDAP.swift:543-557 | the dictionary has exactly the entries' DNs as keys |
| Messages.DictionaryLastWins | Sources/PerfectLDAP/PerfectLDAP.swift:543-557 | a repeated DN keeps the attributes of its last entry |
| Messages.NilValuesNotValued | Sources/PerfectLDAP/PerfectLDAP.swift:551 | an entry with an attribute that has no values reaches the `values[0]` trap |
| Sasl.MechanismName | Sources/PerfectLDAP/PerfectLDAP.swift:42-53 | the raw value is empty exactly for SIMPLE |
| Sasl.MechanismNameInjective | Sources/PerfectLDAP/PerfectLDAP.swift:42-53 | distinct mechanisms are announced under distinct names |
| Sasl.AddressesOf | Sources/PerfectLDAP/PerfectLDAP.swift:110-118 | the addresses the destructor releases are exactly the non-nil trashcan entries, each once when none repeats |
| Sasl.Login.Simple | Sources/PerfectLDAP/PerfectLDAP.swift:88-92 | a simple login holds the DN and password (both "" by default), mechanism SIMPLE, every SASL field empty and nothing to release |
| Sasl.Login.Interactive | Sources/PerfectLDAP/PerfectLDAP.swift:101-108 | a SASL login holds its four answers ("" by default) and mechanism (GSSAPI by default), an empty DN and nothing to release |
| Sasl.Login.Drop | Sources/PerfectLDAP/PerfectLDAP.swift:82 | the pointer is appended to the trashcan |
| Sasl.Login.Deinit | Sources/PerfectLDAP/PerfectLDAP.swift:110-118 | every non-nil trashcan pointer is released once, in order, nil ones are skipped, and the trashcan ends empty |
| Sasl.AnsweredCount | Sources/PerfectLDAP/PerfectLDAP.swift:303-320 | the callback answers exactly the items before the first LIST_END or unknown id |
| Sasl.Respond | Sources/PerfectLDAP/PerfectLDAP.swift:321-329 | a non-empty answer gets a fresh copy, its UTF-8 count as length, and goes to the trashcan; an empty one sets length 0 and allocates nothing |
| Sasl.InteractCallback | Sources/PerfectLDAP/PerfectLDAP.swift:288-334 | returns 0; answers AUTHNAME, USER, PASS and GETREALM from the login and the prompts with "", each item as `Respond` says, leaves the ending item and later ones untouched, drops exactly the copies it made, and the live blocks afterwards are the old ones unchanged plus exactly those copies, none of them previously live |
| Sasl.Pick | Sources/PerfectLDAP/PerfectLDAP.swift:303-318 | AUTHNAME, USER, PASS and GETREALM give the login's authname, user, password and realm; the two prompts give ""; no answer exactly for an id outside those six |
| PerfectLdap.SimpleCredential | Sources/PerfectLDAP/PerfectLDAP.swift:273-275 | the credential is the password's UTF-8 bytes up to the first NUL, no longer than the whole text, with that count as length; it is the whole text exactly when the password holds no NUL |
| PerfectLdap.Check | Sources/PerfectLDAP/PerfectLDAP.swift:336-340 | status 0 succeeds; any other throws the library's text for it |
| PerfectLdap.ScopeValuesDistinct | Sources/PerfectLDAP/PerfectLDAP.swift:35-37 | the five scopes have distinct raw values, DEFAULT alone -1 |
| PerfectLdap.LoginSucceedsOnlyByBind | Sources/PerfectLDAP/PerfectLDAP.swift:254-341 | OTHER always fails as unsupported; SIMPLE succeeds exactly when the simple bind does, other mechanisms exactly when the interactive bind does, and a failure carries that bind's text |
| PerfectLdap.SearchIgnoresStatusWithChain | Sources/PerfectLDAP/PerfectLDAP.swift:656-666 | once the sort control is built, a returned chain decides the result whatever the status, and no chain throws the status's text even for status 0 |
| PerfectLdap.UnsortedSearch | Sources/PerfectLDAP/PerfectLDAP.swift:626-640 | an empty sort string builds no control, cannot fail before the search, and the search is the first call, unsorted |
| PerfectLdap.SearchReleases | Sources/PerfectLDAP/PerfectLDAP.swift:621-667 | the sort key list is freed exactly when it was created, the control exactly when it was created and the search ran, the chain exactly when one came back; the search runs exactly when the sort control did not fail |
| PerfectLdap.DescriptorsCover | Sources/PerfectLDAP/PerfectLDAP.swift:711-718 | there is one descriptor per attribute key, carrying the operation, a copy of the key and that key's values |
| PerfectLdap.LDAP.Open | Sources/PerfectLDAP/PerfectLDAP.swift:220-246 | a decoder that cannot be opened throws its error, then an encoder that cannot; a failed initialization throws; on success the calls are initialize, protocol version 3, then exactly the login's binds when login data is given, whose failure propagates; a throw leaves the dropped object's calls ending in the unbind its `deinit` makes |
| PerfectLdap.LDAP.Login | Sources/PerfectLDAP/PerfectLDAP.swift:254-341 | no login data or mechanism OTHER throw before any call; SIMPLE makes one simple bind and releases the password copy; otherwise one interactive bind whose callback answers every round; the calls added are exactly `LoginCalls` for the mechanism |
| PerfectLdap.LDAP.Search | Sources/PerfectLDAP/PerfectLDAP.swift:621-667 | the result and the exact call sequence are those of the sort control, the lent attribute list and the chain; no C allocation survives |
| PerfectLdap.LDAP.Query | Sources/PerfectLDAP/PerfectLDAP.swift:641-667 | the search with the lent attribute list and the control freed after it; a returned chain is decoded and freed whatever the status, no chain throws the status's text |
| PerfectLdap.LDAP.BuildSortControl | Sources/PerfectLDAP/PerfectLDAP.swift:626-640 | the key list's status is checked before the control's, the first non-zero one is thrown, and the sort string copy is released on every path |
| PerfectLdap.LDAP.Collect | Sources/PerfectLDAP/PerfectLDAP.swift:656-664 | the chain's result set is turned into its dictionary, or traps on an attribute without values |
| PerfectLdap.LDAP.ModAlloc | Sources/PerfectLDAP/PerfectLDAP.swift:696-700 | the descriptor holds the operation, a copy of the key, and `string(str:)` of every value in order in a fresh null-terminated array |
| PerfectLdap.LDAP.Descriptors | Sources/PerfectLDAP/PerfectLDAP.swift:711-718 | a fresh null-terminated array of one descriptor per key |
| PerfectLdap.LDAP.Allocate | Sources/PerfectLDAP/PerfectLDAP.swift:711-715 | every key is taken once, in some order, and gets the descriptor of its values |
| PerfectLdap.LDAP.Add | Sources/PerfectLDAP/PerfectLDAP.swift:709-729 | one ADD/BVALUES descriptor per key, the add call, the descriptors freed, then the status decides |
| PerfectLdap.LDAP.Modify | Sources/PerfectLDAP/PerfectLDAP.swift:767-787 | as `add` with the caller's operation, REPLACE/BVALUES by default, and the modify call |
| PerfectLdap.LDAP.Delete | Sources/PerfectLDAP/PerfectLDAP.swift:824-832 | one delete call, then the status decides |
| PerfectLdap.LDAP.Close | Sources/PerfectLDAP/PerfectLDAP.swift:359-361 | the handle is unbound |
| Legacy.LDAP.WithCArrayOfString | Sources/PerfectLDAP.swift:55-74 | an empty array lends nil; otherwise the operation sees the copies then nil, and every copy is released afterwards |
| Legacy.LegacyCredential | Sources/PerfectLDAP.swift:187 | the length is the password's whole UTF-8 byte count, between its Unicode scalar count and four times that; the buffer is the bytes up to the first NUL; the length exceeds the buffer exactly when the password holds a NUL |
| Legacy.CredentialsAgree | Sources/PerfectLDAP.swift:187 | the older and newer credentials agree exactly when the password has no U+0000; otherwise the older length runs past its copy |
| Legacy.SearchVersions | Sources/PerfectLDAP.swift:451-477 | the older search succeeds exactly for status 0 with a chain; it then agrees with the newer unsorted dictionary, and without a chain both throw the status's text |
| Legacy.LDAP.Login | Sources/PerfectLDAP.swift:186-191 | one simple bind whatever the mechanism, the password copy released, true exactly for status 0 |
| Legacy.LDAP.Search | Sources/PerfectLDAP.swift:451-477 | the attribute list lent for one search; unless the status is 0 and a chain came back the status's text is thrown and the chain kept, otherwise it is decoded, freed and returned |
| Legacy.LDAP.Open | Sources/PerfectLDAP.swift:151-176 | only the decoder is opened, and one that cannot be opened is dropped so the server is read as UTF-8; a failed initialization throws; the login runs only with both username and password, and a refusal throws "Access Denied"; a throw leaves the dropped object's calls ending in the unbind its `deinit` makes |
| Legacy.LDAP.Close | Sources/PerfectLDAP.swift:207-209 | the handle is unbound |

## Left out

- Threading: the asynchronous `login`, `search`, `add`, `modify` and `delete` wrappers only run the synchronous operation on another queue and hand its result to a completion closure.
- The `timeout` and `limitation` properties pass values to `ldap_get_option`/`ldap_set_option`; they are foreign calls with no logic of their own (the older setters also use the wrong option and the getter's value, which is not modelled).
- The `Iconv` converters themselves are foreign: a converter is a function value, and `CodePage` only says whether each of the two converters opened, and with what error text.
- `ldap_msgfree`, `ldap_control_free`, `ldap_free_sort_keylist` and `ldap_memfree` release memory the library allocated; they appear as entries of `calls`, not as `Heap` releases.
- PerfectLdap.LDAP.ModAlloc, PerfectLdap.LDAP.Descriptors, PerfectLdap.LDAP.Add, PerfectLdap.LDAP.Modify: the memory behind an `LDAPMod` array belongs to the wrapper. That is the `ber_strdup(key)` copy, the `ber_strdup` buffer `string(str:)` makes for each value, and the cells and arrays `asUnsafeNullTerminatedPointers` allocates. The model keeps none of it on the `Heap`: a key is its C-string bytes, a value is a `Berval` value, and the arrays are fresh Dafny arrays.
- PerfectLdap.LDAP.Add, PerfectLdap.LDAP.Modify: `ldap_mods_free(pMods, 0)` appears only as the `FreeMods` entry of `calls`. It releases the descriptors and what they hold. With `freemods` 0 it never releases the top-level `pMods` array, so every add and modify leaks that array; the model does not state the leak.
- The search passes `&serverControl` where the library expects a null-terminated array of controls; the model records only whether the search was sorted.
- Sasl.InteractCallback: the loop in the source only stops at an item whose id ends the round; the model also stops at the end of the array, where the source would read past it.
- Sasl.Pick: the source switches on `Int32(interact.id)`, and the id is a C `unsigned long`, so an id above 2^31 - 1 traps; the model reads such an id as unknown, giving no answer and ending the round with status 0.
- PerfectLdap.LDAP.Query, Legacy.LDAP.Search: the search is made, and in the newer file the sort control freed, inside the closure given to `withCArrayOfString`, while the attribute copies are live. In the model the closure only builds the search call from the lent list, and the call is appended to `calls` after the lending returns. The call log and the `Heap` are separate records, so the model does not state that the copies are still live when the search reads them.
- Sasl.Respond: `UInt32(dflt.utf8.count)` traps for an answer longer than 2^32 - 1 bytes; lengths are unbounded here.
- Messages.AttributeMap, Messages.DictionaryOf, Messages.AttributeMapKeys, Messages.AttributeMapLastWins, Messages.DictionaryKeys, Messages.DictionaryLastWins: Swift compares and hashes `String` keys by canonical equivalence, so `"é"` and `"e\u{301}"` are one dictionary key there; the model's `map<string, _>` compares Unicode scalar sequences and keeps them apart. These members hold as stated only for names and DNs that are not canonically equivalent without being equal.
- Strings are sequences of Unicode scalars; Swift's grapheme-cluster `Character`s are not modelled, so every count in the model is a scalar count or a byte count.
- Messages.DecodeAttribute: `String(cString: tag)` repairs ill-formed UTF-8 in an attribute name; a tag is given as an already decoded string.
- PerfectLdap.LDAP.Login: for an interactive bind the contract states only that the trashcan grows; which entries each round adds is stated by `Sasl.InteractCallback`.
- PerfectLdap.LDAP.Add: the key order of a Swift dictionary is unspecified, so the model takes the keys in an arbitrary order and the contract promises only that each key is taken once.
- Legacy.LDAP.Login: the older `AuthType` has no OTHER case; the model shares the newer mechanism type, and the older login ignores it either way.
- The session handle itself, `ldap_initialize`'s URL parsing and the server are outside the model: statuses and message chains are parameters.
- `Package.swift`, the tests and `Sources/BerString.swift` (an older copy of `Iconv.convert(from:)`) are not part of this model.
