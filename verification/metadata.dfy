/**
  The key/value list of a Token-2022 metadata extension
  (`TokenMetadata::additional_metadata`). The program keeps two keys in it
  for every item: `overbid`, the current price as decimal text, and `owner`,
  the text of the current holder's key.
 */
module Metadata {
  import opened Primitives

  type Fields = seq<(string, string)>

  const OverbidKey: string := "overbid"
  const OwnerKey: string := "owner"

  /** The value of the first pair whose key is `key`, as `iter().find` visits them. */
  function Lookup(fields: Fields, key: string): (r: Option<string>)
    ensures r.Some? ==> (key, r.value) in fields
    decreases |fields|
  {
    if fields == [] then None
    else if fields[0].0 == key then Some(fields[0].1)
    else Lookup(fields[1..], key)
  }

  /**
    `TokenMetadata::update` with `Field::Key(key)`: overwrite the value of the
    first pair with that key, or append a new pair when there is none.
   */
  function SetField(fields: Fields, key: string, value: string): (r: Fields)
    ensures (key, value) in r
    ensures |fields| <= |r| <= |fields| + 1
    decreases |fields|
  {
    if fields == [] then [(key, value)]
    else if fields[0].0 == key then [(key, value)] + fields[1..]
    else [fields[0]] + SetField(fields[1..], key, value)
  }

  /**
    The lookup finds a value exactly when some pair has the key, and then it
    is the value of the first such pair.
   */
  lemma {:induction false} LookupFirst(fields: Fields, key: string)
    ensures Lookup(fields, key).None? <==> forall i | 0 <= i < |fields| :: fields[i].0 != key
    ensures Lookup(fields, key).Some? ==>
              exists i | 0 <= i < |fields| :: && fields[i] == (key, Lookup(fields, key).value)
                                               && forall j | 0 <= j < i :: fields[j].0 != key
    decreases |fields|
  {
    if fields != [] && fields[0].0 != key {
      var rest := fields[1..];
      LookupFirst(rest, key);
      assert forall i | 0 <= i < |rest| :: rest[i] == fields[i + 1];
      if Lookup(rest, key).Some? {
        var i :| 0 <= i < |rest| && rest[i] == (key, Lookup(rest, key).value)
                 && forall j | 0 <= j < i :: rest[j].0 != key;
        assert fields[i + 1] == rest[i];
        assert forall j | 0 <= j < i + 1 :: fields[j].0 != key by {
          forall j | 0 <= j < i + 1 ensures fields[j].0 != key {
            if j > 0 {
              assert fields[j] == rest[j - 1];
            }
          }
        }
      }
    }
  }

  /** After an update the key reads as the new value and every other key is unchanged. */
  lemma {:induction false} SetFieldLookup(fields: Fields, key: string, value: string, k: string)
    ensures Lookup(SetField(fields, key, value), k) == if k == key then Some(value) else Lookup(fields, k)
    decreases |fields|
  {
    if fields != [] && fields[0].0 != key {
      var r := SetField(fields, key, value);
      assert r[1..] == SetField(fields[1..], key, value);
      SetFieldLookup(fields[1..], key, value, k);
    } else if fields != [] {
      assert SetField(fields, key, value)[1..] == fields[1..];
    }
  }

  /**
    An update appends a pair only when the key was missing; otherwise the
    list keeps its length. Either way every pair with another key stays at
    its position.
   */
  lemma {:induction false} SetFieldLength(fields: Fields, key: string, value: string)
    ensures |SetField(fields, key, value)| == |fields| + (if Lookup(fields, key).None? then 1 else 0)
    ensures forall i | 0 <= i < |fields| && fields[i].0 != key :: SetField(fields, key, value)[i] == fields[i]
    decreases |fields|
  {
    if fields != [] && fields[0].0 != key {
      var rest := fields[1..];
      SetFieldLength(rest, key, value);
      forall i | 0 <= i < |fields| && fields[i].0 != key ensures SetField(fields, key, value)[i] == fields[i] {
        if i > 0 {
          assert fields[i] == rest[i - 1];
        }
      }
    }
  }

  /** Writing a key twice is the same as writing it once with the second value. */
  lemma {:induction false} SetFieldTwice(fields: Fields, key: string, v: string, w: string)
    ensures SetField(SetField(fields, key, v), key, w) == SetField(fields, key, w)
    decreases |fields|
  {
    if fields != [] && fields[0].0 != key {
      var once := SetField(fields, key, v);
      assert once[0] == fields[0] && once[1..] == SetField(fields[1..], key, v);
      SetFieldTwice(fields[1..], key, v, w);
    } else if fields != [] {
      var once := SetField(fields, key, v);
      assert once[0].0 == key && once[1..] == fields[1..];
    }
  }
}
