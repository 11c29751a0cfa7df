/**
 * `LDAP.sortingString(sortedBy:)`: a list of (field, ASC|DSC) pairs folded
 * into the text of a server-side sort key list (RFC 2891, section 1.1, in
 * the `[-]attribute` form that `ldap_create_sort_keylist` parses).
 */
module SortControl {

  datatype SortingOrder = ASC | DSC

  datatype SortKey = SortKey(field: string, order: SortingOrder)

  /** The text one key contributes: the field, prefixed with '-' when descending. */
  function Token(k: SortKey): string {
    if k.order == ASC then k.field else "-" + k.field
  }

  /** One step of the reduce: the first non-empty text is taken as is, later ones after a space. */
  function Step(previous: string, next: SortKey): string {
    var str := Token(next);
    if previous == [] then str else previous + " " + str
  }

  /** `sortedBy.reduce(acc, Step)`, a left fold. */
  function Fold(acc: string, keys: seq<SortKey>): string
    decreases |keys|
  {
    if keys == [] then acc else Fold(Step(acc, keys[0]), keys[1..])
  }

  /** `LDAP.sortingString(sortedBy:)`. */
  function SortingString(keys: seq<SortKey>): string {
    Fold("", keys)
  }

  // ---------------------------------------------------------------------
  // Reference definition: tokens joined by single spaces

  function Tokens(keys: seq<SortKey>): (ts: seq<string>)
    ensures |ts| == |keys|
    ensures forall i :: 0 <= i < |keys| ==> ts[i] == Token(keys[i])
  {
    if keys == [] then [] else [Token(keys[0])] + Tokens(keys[1..])
  }

  /** " t1 t2 ... tn": each token preceded by one space. */
  function Spaced(ts: seq<string>): string {
    if ts == [] then "" else " " + ts[0] + Spaced(ts[1..])
  }

  /** "t1 t2 ... tn": the tokens in order, separated by exactly one space. */
  function Join(ts: seq<string>): string {
    if ts == [] then "" else ts[0] + Spaced(ts[1..])
  }

  /** The tokens after a leading run of empty ones. */
  function DropLeadingEmpty(ts: seq<string>): seq<string> {
    if ts == [] then [] else if ts[0] == "" then DropLeadingEmpty(ts[1..]) else ts
  }

  lemma {:induction false} FoldAfterText(acc: string, keys: seq<SortKey>)
    requires acc != ""
    ensures Fold(acc, keys) == acc + Spaced(Tokens(keys))
    decreases |keys|
  {
    if keys != [] {
      var t, rest := Token(keys[0]), Tokens(keys[1..]);
      FoldAfterText(acc + " " + t, keys[1..]);
      SpacedTokens(keys);
      Regroup(acc, t, Spaced(rest));
    }
  }

  /** The spaced tokens of a non-empty key list: a space, the first token, then the spaced rest. */
  lemma SpacedTokens(keys: seq<SortKey>)
    requires keys != []
    ensures Spaced(Tokens(keys)) == " " + Token(keys[0]) + Spaced(Tokens(keys[1..]))
  {
    assert Tokens(keys)[1..] == Tokens(keys[1..]);
  }

  lemma Regroup(acc: string, t: string, tail: string)
    ensures acc + " " + t + tail == acc + (" " + t + tail)
  {
  }

  lemma {:induction false} FoldFromEmpty(keys: seq<SortKey>)
    ensures Fold("", keys) == Join(DropLeadingEmpty(Tokens(keys)))
    decreases |keys|
  {
    if keys != [] {
      var t := Token(keys[0]);
      assert Tokens(keys) == [t] + Tokens(keys[1..]);
      assert Tokens(keys)[1..] == Tokens(keys[1..]);
      if t == "" {
        FoldFromEmpty(keys[1..]);
      } else {
        FoldAfterText(t, keys[1..]);
      }
    }
  }

  /**
   * What `sortingString` produces: the key tokens in input order, joined by
   * single spaces, except that leading keys whose text is empty (an
   * ascending key with an empty field name) are swallowed together with
   * their separators.
   */
  lemma SortingStringIsJoin(keys: seq<SortKey>)
    ensures SortingString(keys) == Join(DropLeadingEmpty(Tokens(keys)))
    ensures keys == [] ==> SortingString(keys) == ""
    ensures keys != [] && Token(keys[0]) != "" ==> SortingString(keys) == Join(Tokens(keys))
  {
    FoldFromEmpty(keys);
  }

  // ---------------------------------------------------------------------
  // Inverse: reading the key list back

  /** The pieces of `s` between single spaces; [""] for "". */
  function Split(s: string): (r: seq<string>)
    ensures |r| >= 1
  {
    if s == [] then [""]
    else if s[0] == ' ' then [""] + Split(s[1..])
    else var rest := Split(s[1..]); [[s[0]] + rest[0]] + rest[1..]
  }

  /** One token of the key list: a leading '-' means descending. */
  function ParseToken(t: string): SortKey {
    if |t| > 0 && t[0] == '-' then SortKey(t[1..], DSC) else SortKey(t, ASC)
  }

  /** The key list the control string describes. */
  function ParseSortKeys(s: string): (keys: seq<SortKey>) {
    if s == "" then []
    else var pieces := Split(s); seq(|pieces|, i requires 0 <= i < |pieces| => ParseToken(pieces[i]))
  }

  predicate NoSpace(t: string) {
    forall i :: 0 <= i < |t| ==> t[i] != ' '
  }

  /** A field that can be written in the key list and read back: non-empty, no space, no leading '-'. */
  predicate Writable(k: SortKey) {
    k.field != "" && NoSpace(k.field) && k.field[0] != '-'
  }

  lemma {:induction false} SplitWord(t: string, rest: string)
    requires NoSpace(t)
    ensures Split(t) == [t]
    ensures Split(t + " " + rest) == [t] + Split(rest)
  {
    if t != [] {
      SplitWord(t[1..], rest);
      assert (t + " " + rest)[1..] == t[1..] + " " + rest;
      assert [t[0]] + t[1..] == t;
    } else {
      assert (t + " " + rest)[1..] == rest;
    }
  }

  lemma JoinCons(ts: seq<string>)
    requires |ts| >= 2
    ensures Join(ts) == ts[0] + " " + Join(ts[1..])
  {
    var tail := ts[1..];
    assert Spaced(tail) == " " + tail[0] + Spaced(tail[1..]);
  }

  lemma {:induction false} SplitJoin(ts: seq<string>)
    requires ts != []
    requires forall i :: 0 <= i < |ts| ==> NoSpace(ts[i])
    ensures Split(Join(ts)) == ts
  {
    if |ts| == 1 {
      SplitWord(ts[0], "");
      assert Join(ts) == ts[0];
    } else {
      var tail := ts[1..];
      JoinCons(ts);
      SplitWord(ts[0], Join(tail));
      SplitJoin(tail);
      assert [ts[0]] + tail == ts;
    }
  }

  /**
   * The key-list parser undoes `sortingString` for keys whose fields can be
   * written: non-empty, without spaces, not starting with '-'.
   */
  lemma SortingStringRoundTrip(keys: seq<SortKey>)
    requires forall i :: 0 <= i < |keys| ==> Writable(keys[i])
    ensures ParseSortKeys(SortingString(keys)) == keys
  {
    SortingStringIsJoin(keys);
    if keys != [] {
      var ts := Tokens(keys);
      assert Token(keys[0]) != "";
      forall i | 0 <= i < |ts| ensures NoSpace(ts[i]) {
        assert Writable(keys[i]);
        if keys[i].order == DSC {
          forall j | 0 <= j < |ts[i]| ensures ts[i][j] != ' ' {
            if j > 0 {
              assert ts[i][j] == keys[i].field[j - 1];
            }
          }
        }
      }
      SplitJoin(ts);
      assert Join(ts) != "" by { assert |Join(ts)| >= |ts[0]|; }
      var parsed := ParseSortKeys(Join(ts));
      assert |parsed| == |keys|;
      forall i | 0 <= i < |keys| ensures parsed[i] == keys[i] {
        assert Writable(keys[i]);
        if keys[i].order == DSC {
          assert ts[i][1..] == keys[i].field;
        }
      }
    }
  }
}
