/** Property-list values as createTssRequest and createTssFirmware see them
    once the plist library has parsed them: a dictionary is its entries in
    document order, and getValueByKey returns the value of the first entry
    with the key. */
module PlistValue {
  import opened Wrappers

  datatype Value =
    | Str(text: string)
    | Integer(number: int)
    | Bool(flag: bool)
    | Data(bytes: seq<char>)
    | Array(items: seq<Value>)
    | Dict(entries: seq<Entry>)

  datatype Entry = Entry(key: string, value: Value)

  /** The position of the first entry at or after `from` with key k. */
  function FirstIndexFrom(es: seq<Entry>, k: string, from: nat): (r: Option<nat>)
    requires from <= |es|
    decreases |es| - from
    ensures r.Some? ==> from <= r.value < |es| && es[r.value].key == k
    ensures forall j :: from <= j < |es| && (r.None? || j < r.value) ==> es[j].key != k
  {
    if from == |es| then None
    else if es[from].key == k then Some(from)
    else FirstIndexFrom(es, k, from + 1)
  }

  /** The position of the first entry with key k. */
  function FirstIndex(es: seq<Entry>, k: string): (r: Option<nat>)
    ensures r.Some? ==> r.value < |es| && es[r.value].key == k
    ensures r.Some? ==> forall j :: 0 <= j < r.value ==> es[j].key != k
    ensures r.None? <==> forall j :: 0 <= j < |es| ==> es[j].key != k
  {
    FirstIndexFrom(es, k, 0)
  }

  /** getValueByKey: the value of the first entry with key k. */
  function Lookup(es: seq<Entry>, k: string): (r: Option<Value>)
    ensures r.Some? <==> exists j :: 0 <= j < |es| && es[j].key == k
    ensures r.Some? ==> exists j :: 0 <= j < |es| && es[j] == Entry(k, r.value) &&
                                    forall i :: 0 <= i < j ==> es[i].key != k
  {
    match FirstIndex(es, k)
    case None => None
    case Some(j) => Some(es[j].value)
  }

  /** The entry at i is the one getValueByKey finds when no earlier entry
      has its key. */
  lemma FoundAt(es: seq<Entry>, k: string, i: nat)
    requires i < |es| && es[i].key == k && forall j :: 0 <= j < i ==> es[j].key != k
    ensures FirstIndex(es, k) == Some(i) && Lookup(es, k) == Some(es[i].value)
  {
  }

  /** The entry list without the entry at i. */
  function RemoveAt(es: seq<Entry>, i: nat): (r: seq<Entry>)
    requires i < |es|
    ensures |r| == |es| - 1
    ensures forall j :: 0 <= j < i ==> r[j] == es[j]
    ensures forall j :: i <= j < |r| ==> r[j] == es[j + 1]
  {
    es[..i] + es[i + 1..]
  }

  function Keys(es: seq<Entry>): (ks: seq<string>)
    ensures |ks| == |es| && forall j :: 0 <= j < |es| ==> ks[j] == es[j].key
  {
    if es == [] then [] else [es[0].key] + Keys(es[1..])
  }

  /** A key found by Lookup keeps being found after the first entry with
      another key is removed, with the same value. */
  lemma LookupRemoveOther(es: seq<Entry>, i: nat, k: string)
    requires i < |es| && FirstIndex(es, es[i].key) == Some(i) && k != es[i].key
    ensures Lookup(RemoveAt(es, i), k) == Lookup(es, k)
  {
    var r := RemoveAt(es, i);
    match FirstIndex(es, k)
    case None => {
      assert forall j :: 0 <= j < |r| ==> r[j].key != k by {
        forall j | 0 <= j < |r| ensures r[j].key != k {
          if j >= i { assert r[j] == es[j + 1]; }
        }
      }
    }
    case Some(m) => {
      assert m != i;
      var m' := if m < i then m else m - 1;
      assert r[m'] == es[m];
      forall j | 0 <= j < m' ensures r[j].key != k {
        if j >= i { assert r[j] == es[j + 1]; }
      }
      assert FirstIndex(r, k) == Some(m');
    }
  }
}
