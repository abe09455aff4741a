/** A Python `dict` as the stores of this system use it: a map together with the
    order in which its keys were first inserted.  Assigning to a present key keeps
    its place, assigning to a new key appends it, `del` removes it from the order.
    Iteration (`items()`, `values()`) follows `keys`. */
module OrderedDict {

  datatype Dict<K, V> = Dict(keys: seq<K>, entries: map<K, V>)

  predicate Distinct<K(==)>(s: seq<K>) {
    forall i, j :: 0 <= i < j < |s| ==> s[i] != s[j]
  }

  /** `a` lists some of the elements of `b`, in the order in which `b` lists them. */
  predicate Subsequence<K(==)>(a: seq<K>, b: seq<K>)
    decreases |b|
  {
    || a == []
    || (b != [] && (|| Subsequence(a, b[..|b| - 1])
                    || (a[|a| - 1] == b[|b| - 1] && Subsequence(a[..|a| - 1], b[..|b| - 1]))))
  }

  /** Every list is a subsequence of itself. */
  lemma {:induction false} SubsequenceOfSelf<K>(s: seq<K>)
    ensures Subsequence(s, s)
  {
    if s != [] {
      SubsequenceOfSelf(s[..|s| - 1]);
    }
  }

  /** The keys are listed once each, and exactly the keys of the map are listed. */
  ghost predicate Valid<K(!new), V>(d: Dict<K, V>) {
    && Distinct(d.keys)
    && (forall k :: k in d.entries <==> k in d.keys)
  }

  function Empty<K(!new), V>(): (d: Dict<K, V>)
    ensures Valid(d) && d.keys == [] && d.entries == map[]
  {
    Dict([], map[])
  }

  /** Position of a listed key. */
  function IndexOf<K(==)>(s: seq<K>, k: K): (i: nat)
    requires k in s
    ensures i < |s| && s[i] == k
    ensures forall j :: 0 <= j < i ==> s[j] != k
  {
    if s[0] == k then 0 else 1 + IndexOf(s[1..], k)
  }

  /** `d[k] = v`. */
  function Put<K(!new), V>(d: Dict<K, V>, k: K, v: V): (r: Dict<K, V>)
    requires Valid(d)
    ensures Valid(r)
    ensures k in r.entries && r.entries[k] == v
    ensures forall j :: j != k ==> (j in r.entries <==> j in d.entries)
    ensures forall j :: j != k && j in d.entries ==> r.entries[j] == d.entries[j]
    ensures k in d.entries ==> r.keys == d.keys
    ensures k !in d.entries ==> r.keys == d.keys + [k]
  {
    if k in d.entries then Dict(d.keys, d.entries[k := v])
    else Dict(d.keys + [k], d.entries[k := v])
  }

  /** `del d[k]`, for a key that is present. */
  function Remove<K(!new), V>(d: Dict<K, V>, k: K): (r: Dict<K, V>)
    requires Valid(d) && k in d.entries
    ensures Valid(r)
    ensures k !in r.entries
    ensures forall j :: j != k ==> (j in r.entries <==> j in d.entries)
    ensures forall j :: j != k && j in d.entries ==> r.entries[j] == d.entries[j]
    ensures |r.keys| + 1 == |d.keys|
  {
    var i := IndexOf(d.keys, k);
    RemoveAt(d, i);
    Dict(d.keys[..i] + d.keys[i + 1..], d.entries - {k})
  }

  /** `del` keeps the order of the other keys: it drops the key's position. */
  lemma RemoveKeepsOrder<K(!new), V>(d: Dict<K, V>, k: K)
    requires Valid(d) && k in d.entries
    ensures var i := IndexOf(d.keys, k); Remove(d, k).keys == d.keys[..i] + d.keys[i + 1..]
  {
  }

  /** Dropping the key at position `i` from both the list and the map keeps
      the dict well formed and every other entry as it was. */
  lemma RemoveAt<K(!new), V>(d: Dict<K, V>, i: nat)
    requires Valid(d) && i < |d.keys|
    ensures var r := Dict(d.keys[..i] + d.keys[i + 1..], d.entries - {d.keys[i]});
      && Valid(r)
      && d.keys[i] !in r.entries
      && (forall j :: j != d.keys[i] ==> (j in r.entries <==> j in d.entries))
      && (forall j :: j != d.keys[i] && j in d.entries ==> r.entries[j] == d.entries[j])
      && |r.keys| + 1 == |d.keys|
  {
    var keys := d.keys[..i] + d.keys[i + 1..];
    DeleteAt(d.keys, i);
    var entries := d.entries - {d.keys[i]};
    assert forall j :: j in entries <==> j in keys;
  }

  /** Deleting the element at one position of a list of distinct keys leaves a
      list of distinct keys holding exactly the others. */
  lemma DeleteAt<K>(s: seq<K>, i: nat)
    requires Distinct(s) && i < |s|
    ensures Distinct(s[..i] + s[i + 1..])
    ensures forall x :: x in s[..i] + s[i + 1..] <==> x in s && x != s[i]
  {
    var t := s[..i] + s[i + 1..];
    assert forall j :: 0 <= j < |t| ==> t[j] == if j < i then s[j] else s[j + 1];
    forall x ensures x in t <==> x in s && x != s[i] {
      if x in s && x != s[i] {
        var j :| 0 <= j < |s| && s[j] == x;
        assert j != i;
        assert t[if j < i then j else j - 1] == x;
      }
    }
  }

  /** `d.values()`, in key order. */
  function Values<K(!new), V>(d: Dict<K, V>): (vs: seq<V>)
    requires Valid(d)
    ensures |vs| == |d.keys|
    ensures forall i :: 0 <= i < |d.keys| ==> vs[i] == d.entries[d.keys[i]]
  {
    seq(|d.keys|, i requires 0 <= i < |d.keys| => d.entries[d.keys[i]])
  }

  /** Writing a key twice is writing it once with the second value. */
  lemma PutTwice<K(!new), V>(d: Dict<K, V>, k: K, v: V, w: V)
    requires Valid(d)
    ensures Put(Put(d, k, v), k, w) == Put(d, k, w)
  {
    assert d.entries[k := v][k := w] == d.entries[k := w];
  }

  /** A list of distinct keys has as many elements as the set of its keys. */
  lemma {:induction false} DistinctCard<K>(s: seq<K>)
    requires Distinct(s)
    ensures |set k | k in s| == |s|
  {
    if s != [] {
      var init := s[..|s| - 1];
      DistinctCard(init);
      assert (set k | k in s) == (set k | k in init) + {s[|s| - 1]};
    }
  }

  /** A dict holds as many entries as it lists keys (`len(d)`). */
  lemma SizeIsKeyCount<K(!new), V>(d: Dict<K, V>)
    requires Valid(d)
    ensures |d.entries| == |d.keys|
  {
    DistinctCard(d.keys);
    assert d.entries.Keys == set k | k in d.keys;
  }
}
