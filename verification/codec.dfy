/**
  The codec capability as the store uses it: a deterministic text encoding of
  a whole state mapping, and the outcome of decoding a stored text, kept
  abstract as a tag.
 */
module Codec {
  import opened JsonValue
  import opened KeyOrder

  /**
    What decoding a stored text yields: a plain key/value object, a
    well-formed value that is not a plain object (a number, a string, an
    array, `null`), or a text that does not parse at all.
   */
  datatype Decoded = Obj(fields: map<string, Value>) | NonObject | Malformed

  /** One member of the encoded object: the quoted key, a colon and the value. */
  function EncodeMember(key: string, v: Value): (r: string)
    ensures |r| >= 4
  {
    "\"" + key + "\":" + EncodeValue(v)
  }

  /** The encoded members for the keys `ks`, in that order. */
  function Members(ks: seq<string>, m: map<string, Value>): (r: seq<string>)
    requires forall i :: 0 <= i < |ks| ==> ks[i] in m
    ensures |r| == |ks|
    ensures forall i :: 0 <= i < |ks| ==> r[i] == EncodeMember(ks[i], m[ks[i]])
  {
    seq(|ks|, i requires 0 <= i < |ks| => EncodeMember(ks[i], m[ks[i]]))
  }

  /** The encoded members of `m`, in ascending key order. */
  function MemberTexts(m: map<string, Value>): (r: seq<string>)
    ensures |r| == |m.Keys|
    ensures forall i :: 0 <= i < |r| ==>
      SortedKeys(m.Keys)[i] in m &&
      r[i] == EncodeMember(SortedKeys(m.Keys)[i], m[SortedKeys(m.Keys)[i]])
  {
    var ks := SortedKeys(m.Keys);
    assert forall i :: 0 <= i < |ks| ==> ks[i] in m;
    Members(ks, m)
  }

  /**
    The text the store writes to its slot: one object holding every key of
    the mapping exactly once, keys in ascending order; keys not in the
    mapping are omitted entirely.
   */
  function Encode(m: map<string, Value>): (r: string)
    ensures |r| == |Join(MemberTexts(m))| + 2
    ensures r[0] == '{' && r[|r| - 1] == '}'
    ensures m == map[] ==> r == "{}"
  {
    "{" + Join(MemberTexts(m)) + "}"
  }

  /** Dropping the key at position `i` from `ks`, and from the mapping, drops the `i`-th member text. */
  lemma MembersDrop(ks: seq<string>, m: map<string, Value>, i: nat)
    requires i < |ks|
    requires forall j :: 0 <= j < |ks| ==> ks[j] in m
    requires forall j :: 0 <= j < |ks| && j != i ==> ks[j] != ks[i]
    ensures forall j :: 0 <= j < |Drop(ks, i)| ==> Drop(ks, i)[j] in m - {ks[i]}
    ensures Members(Drop(ks, i), m - {ks[i]}) == Members(ks, m)[..i] + Members(ks, m)[i + 1..]
  {
  }

  /** Removing key `k`, which sits at position `i` of the sorted keys, drops the `i`-th member text. */
  lemma MemberTextsRemove(m: map<string, Value>, k: string) returns (i: nat)
    requires k in m
    ensures i < |MemberTexts(m)|
    ensures MemberTexts(m - {k}) == MemberTexts(m)[..i] + MemberTexts(m)[i + 1..]
  {
    var s := SortedKeys(m.Keys);
    i := SortedKeysRemove(m.Keys, k);
    assert (m - {k}).Keys == m.Keys - {k};
    assert forall j :: 0 <= j < |s| ==> s[j] in m;
    forall j | 0 <= j < |s| && j != i
      ensures s[j] != s[i]
    {
      AscendingDistinct(s, j, i);
    }
    MembersDrop(s, m, i);
  }

  /** Removing a present key makes the encoding strictly shorter. */
  lemma EncodeRemoveShrinks(m: map<string, Value>, k: string)
    requires k in m
    ensures |Encode(m - {k})| < |Encode(m)|
  {
    var i := MemberTextsRemove(m, k);
    JoinDropShrinks(MemberTexts(m), i);
  }
}
