/** The order in which `for (const key in object)` visits the keys of a plain object built by
    assignment, as the content script's `replacementsByRule` is: first the keys that are array
    indices, in ascending numeric order, then the other keys in the order they were added
    (section 10.1.11.1, OrdinaryOwnPropertyKeys, of ECMA-262). */
module PropertyKeys {
  import opened Text

  /** 2^32 - 1: array indices are the integers below it. */
  const ArrayIndexBound: nat := 4294967295

  predicate AllDigits(k: string) {
    forall i :: 0 <= i < |k| ==> IsDigit(k[i])
  }

  /** The numeric value of a key made of digits (0 for any other key). */
  function KeyValue(k: string): nat {
    if AllDigits(k) then DecimalValue(k) else 0
  }

  /** `k` is the canonical decimal form of an integer below 2^32 - 1: digits only, no leading zero. */
  predicate IsArrayIndex(k: string) {
    && k != []
    && AllDigits(k)
    && (k[0] == '0' ==> |k| == 1)
    && KeyValue(k) < ArrayIndexBound
  }

  /** The keys that are array indices, in the order given. */
  function IndexKeys(keys: seq<string>): (r: seq<string>)
    ensures forall i :: 0 <= i < |r| ==> IsArrayIndex(r[i])
  {
    if keys == [] then []
    else if IsArrayIndex(keys[0]) then [keys[0]] + IndexKeys(keys[1..])
    else IndexKeys(keys[1..])
  }

  /** The other keys, in the order given. */
  function OtherKeys(keys: seq<string>): (r: seq<string>)
    ensures forall i :: 0 <= i < |r| ==> !IsArrayIndex(r[i])
  {
    if keys == [] then []
    else if IsArrayIndex(keys[0]) then OtherKeys(keys[1..])
    else [keys[0]] + OtherKeys(keys[1..])
  }

  lemma {:induction false} SplitKeysMultiset(keys: seq<string>)
    ensures multiset(IndexKeys(keys)) + multiset(OtherKeys(keys)) == multiset(keys)
  {
    if keys != [] {
      SplitKeysMultiset(keys[1..]);
      assert keys == [keys[0]] + keys[1..];
    }
  }

  /** Index keys in ascending numeric order. */
  predicate Ascending(ks: seq<string>) {
    forall i, j :: 0 <= i < j < |ks| ==> KeyValue(ks[i]) <= KeyValue(ks[j])
  }

  lemma AscendingCons(k: string, ks: seq<string>)
    requires Ascending(ks) && (ks == [] || KeyValue(k) <= KeyValue(ks[0]))
    ensures Ascending([k] + ks)
  {
    var r := [k] + ks;
    forall i, j | 0 <= i < j < |r| ensures KeyValue(r[i]) <= KeyValue(r[j]) {
      if i == 0 && j > 1 {
        assert KeyValue(ks[0]) <= KeyValue(ks[j - 1]);
      }
    }
  }

  /** Inserts a key into an ascending sequence of keys, after the keys of smaller value. */
  function InsertByValue(k: string, ks: seq<string>): (r: seq<string>)
    requires Ascending(ks)
    ensures Ascending(r)
    ensures multiset(r) == multiset(ks) + multiset{k}
    ensures r[0] == k || (ks != [] && r[0] == ks[0])
  {
    if ks == [] || KeyValue(k) <= KeyValue(ks[0]) then
      AscendingCons(k, ks);
      [k] + ks
    else
      var rest := InsertByValue(k, ks[1..]);
      AscendingCons(ks[0], rest);
      assert ks == [ks[0]] + ks[1..];
      [ks[0]] + rest
  }

  /** The keys sorted by value. */
  function SortByValue(ks: seq<string>): (r: seq<string>)
    ensures Ascending(r)
    ensures multiset(r) == multiset(ks)
  {
    if ks == [] then []
    else
      assert ks == [ks[0]] + ks[1..];
      InsertByValue(ks[0], SortByValue(ks[1..]))
  }

  /** The order of a `for...in` loop over an object whose keys were added in the order `keys`. */
  function ForInOrder(keys: seq<string>): seq<string> {
    SortByValue(IndexKeys(keys)) + OtherKeys(keys)
  }

  /** The loop visits every key exactly as often as it was added. */
  lemma ForInOrderPermutation(keys: seq<string>)
    ensures multiset(ForInOrder(keys)) == multiset(keys)
  {
    SplitKeysMultiset(keys);
  }

  /** Every key the loop visits was added. */
  lemma ForInOrderMember(keys: seq<string>, t: nat)
    requires t < |ForInOrder(keys)|
    ensures ForInOrder(keys)[t] in keys
  {
    ForInOrderPermutation(keys);
    assert ForInOrder(keys)[t] in multiset(keys);
  }

  /** The index keys come first, in ascending numeric order; the other keys follow in the order
      they were added. */
  lemma ForInOrderLayout(keys: seq<string>)
    ensures var r := ForInOrder(keys); var c := |IndexKeys(keys)|;
      && c <= |r|
      && (forall i :: 0 <= i < c ==> IsArrayIndex(r[i]))
      && (forall i, j :: 0 <= i < j < c ==> KeyValue(r[i]) <= KeyValue(r[j]))
      && r[c..] == OtherKeys(keys)
  {
    var ks := IndexKeys(keys);
    var s := SortByValue(ks);
    assert |s| == |ks| by {
      assert |multiset(s)| == |multiset(ks)|;
    }
    forall i | 0 <= i < |s| ensures IsArrayIndex(s[i]) {
      assert s[i] in multiset(ks);
    }
  }

  /** With no array-index keys, the loop follows insertion order. */
  lemma ForInOrderNoIndexKeys(keys: seq<string>)
    requires forall i :: 0 <= i < |keys| ==> !IsArrayIndex(keys[i])
    ensures ForInOrder(keys) == keys
  {
    NoIndexKeys(keys);
  }

  lemma {:induction false} NoIndexKeys(keys: seq<string>)
    requires forall i :: 0 <= i < |keys| ==> !IsArrayIndex(keys[i])
    ensures IndexKeys(keys) == [] && OtherKeys(keys) == keys
  {
    if keys != [] {
      NoIndexKeys(keys[1..]);
      assert keys == [keys[0]] + keys[1..];
    }
  }
}
