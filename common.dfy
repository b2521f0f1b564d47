/** Small value helpers shared by the other modules: an optional value,
    Python's `dict.get(key, default)`, duplicate-freedom and `list.index`. */
module Common {

  datatype Option<T> = None | Some(value: T)

  /** `d.get(k, default)` */
  function Get<K, V>(d: map<K, V>, k: K, default: V): (v: V)
    ensures k in d ==> v == d[k]
    ensures k !in d ==> v == default
  {
    if k in d then d[k] else default
  }

  /** No element occurs twice. */
  predicate NoDup<T(==)>(s: seq<T>)
  {
    forall a, b :: 0 <= a < b < |s| ==> s[a] != s[b]
  }

  /** Python's `list.index(x)`: the position of the first occurrence of `x`. */
  function IndexOf<T(==)>(s: seq<T>, x: T): (k: nat)
    requires x in s
    ensures k < |s| && s[k] == x
    ensures forall j :: 0 <= j < k ==> s[j] != x
  {
    if s[0] == x then 0 else 1 + IndexOf(s[1..], x)
  }

  /** The first occurrence of a duplicate-free sequence's element is its only one. */
  lemma IndexOfNoDup<T>(s: seq<T>, k: nat)
    requires NoDup(s) && k < |s|
    ensures IndexOf(s, s[k]) == k
  {
  }

  /** Python's `d[new] = d.pop(old, default)`: move the entry for `from` (or
      `default` if there is none) to the key `to`. */
  function Rekey<K(!new), V>(d: map<K, V>, from: K, to: K, default: V): (r: map<K, V>)
    ensures to in r && r[to] == Get(d, from, default)
    ensures from != to ==> from !in r
    ensures forall k :: k != from && k != to ==> (k in r <==> k in d)
    ensures forall k :: k != from && k != to && k in d ==> r[k] == d[k]
  {
    (d - {from})[to := Get(d, from, default)]
  }
}
