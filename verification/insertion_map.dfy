/** Finite maps that remember insertion order: the semantics of the JavaScript `Map`
    the server keeps its rooms, and each room's users, in. Lookups behave like a Dafny
    `map`; iteration (`forEach`, `values()`) visits keys in the order they were first
    inserted; overwriting a present key keeps its position; deleting a key drops it. */
module InsertionMap {

  /** True iff no element occurs twice in `s`. */
  predicate Distinct<T(==)>(s: seq<T>) {
    forall i, j :: 0 <= i < j < |s| ==> s[i] != s[j]
  }

  /** `s` without `x`, every other element kept in its original order. */
  function Remove<T(==,!new)>(s: seq<T>, x: T): (r: seq<T>)
    ensures forall y :: y in r <==> y in s && y != x
    ensures Distinct(s) ==> Distinct(r)
    ensures x !in s ==> r == s
  {
    if s == [] then []
    else if s[0] == x then Remove(s[1..], x)
    else
      var rest := Remove(s[1..], x);
      assert Distinct(s) ==> Distinct([s[0]] + rest) by {
        if Distinct(s) {
          assert s[0] !in s[1..];
          DistinctConcat([s[0]], rest);
        }
      }
      [s[0]] + rest
  }

  /** In a sequence without repetitions every element occurs exactly once. */
  lemma {:induction false} DistinctMultiplicity<T>(s: seq<T>, x: T)
    requires Distinct(s)
    ensures multiset(s)[x] == if x in s then 1 else 0
  {
    if s != [] {
      assert s == [s[0]] + s[1..];
      assert Distinct(s[1..]);
      DistinctMultiplicity(s[1..], x);
      assert s[0] !in s[1..];
    }
  }

  /** Two sequences without repetitions and without common elements concatenate
      into a sequence without repetitions. */
  lemma DistinctConcat<T>(a: seq<T>, b: seq<T>)
    requires Distinct(a) && Distinct(b)
    requires forall x :: x in a ==> x !in b
    ensures Distinct(a + b)
  {
    forall i, j | 0 <= i < j < |a + b|
      ensures (a + b)[i] != (a + b)[j]
    {
      if j < |a| {
      } else if i < |a| {
        assert (a + b)[i] in a && (a + b)[j] in b;
      }
    }
  }

  /** An insertion-ordered map: `keys` lists the present keys in insertion order. */
  datatype IMap<K(==,!new), V> = IMap(keys: seq<K>, entries: map<K, V>) {

    /** The representation invariant: `keys` lists each key of `entries` exactly once. */
    ghost predicate Valid() {
      && Distinct(keys)
      && (forall k :: k in entries <==> k in keys)
    }

    /** `Map.prototype.set`: a new key goes to the end of the order, a present key is
        overwritten in place. */
    function Set(k: K, v: V): (r: IMap<K, V>)
      requires Valid()
      ensures r.Valid()
      ensures r.entries == entries[k := v]
      ensures |keys| <= |r.keys| && r.keys[..|keys|] == keys
    {
      if k in entries then IMap(keys, entries[k := v]) else IMap(keys + [k], entries[k := v])
    }

    /** `Map.prototype.delete`: drops `k`, the other keys keep their relative order. */
    function Delete(k: K): (r: IMap<K, V>)
      requires Valid()
      ensures r.Valid()
      ensures r.entries == entries - {k}
    {
      IMap(Remove(keys, k), entries - {k})
    }

    /** `Map.prototype.values`, in insertion order. */
    function Values(): seq<V>
      requires Valid()
    {
      seq(|keys|, i requires 0 <= i < |keys| => entries[keys[i]])
    }
  }

  /** `new Map()`. */
  function Empty<K(==,!new), V>(): (r: IMap<K, V>)
    ensures r.Valid() && r.entries == map[]
  {
    IMap([], map[])
  }
}
