/** An ordered dictionary with string keys: what a JavaScript object used as
    a map is, once its enumeration order matters. Assigning to a key that is
    already present replaces its value in place; a new key goes at the end.
    `_.values` lists the values in that order. */
module Dict {
  import opened Strings

  predicate HasKey<V>(es: seq<(string, V)>, key: string) {
    exists i :: 0 <= i < |es| && es[i].0 == key
  }

  predicate KeysDistinct<V>(es: seq<(string, V)>) {
    forall i, j :: 0 <= i < j < |es| ==> es[i].0 != es[j].0
  }

  /** `obj[key]`: the value stored under `key`, if any. */
  function Lookup<V>(es: seq<(string, V)>, key: string): Option<V>
  {
    if es == [] then None
    else if es[0].0 == key then Some(es[0].1)
    else Lookup(es[1..], key)
  }

  /** A missing key reads as nothing; a present one reads as its value. */
  lemma {:induction false} LookupSpec<V>(es: seq<(string, V)>, key: string)
    requires KeysDistinct(es)
    ensures Lookup(es, key).None? <==> !HasKey(es, key)
    ensures forall i :: 0 <= i < |es| && es[i].0 == key ==> Lookup(es, key) == Some(es[i].1)
  {
    if es != [] {
      LookupSpec(es[1..], key);
      if es[0].0 != key {
        if HasKey(es, key) {
          var i :| 0 <= i < |es| && es[i].0 == key;
          assert es[1..][i - 1] == es[i];
        }
        forall i | 0 <= i < |es| && es[i].0 == key ensures Lookup(es, key) == Some(es[i].1) {
          assert es[1..][i - 1] == es[i];
        }
      }
    }
  }

  /** `obj[key] = v`. */
  function Put<V>(es: seq<(string, V)>, key: string, v: V): seq<(string, V)>
  {
    if es == [] then [(key, v)]
    else if es[0].0 == key then [(key, v)] + es[1..]
    else [es[0]] + Put(es[1..], key, v)
  }

  /** Overwriting a present key keeps its position and every other entry. */
  lemma {:induction false} PutInPlace<V>(es: seq<(string, V)>, key: string, v: V, i: nat)
    requires KeysDistinct(es)
    requires i < |es| && es[i].0 == key
    ensures Put(es, key, v) == es[i := (key, v)]
  {
    if i > 0 {
      assert es[0].0 != key;
      assert es[1..][i - 1].0 == key;
      PutInPlace(es[1..], key, v, i - 1);
      assert es[i := (key, v)] == [es[0]] + es[1..][i - 1 := (key, v)];
    }
  }

  /** A new key is appended after every existing entry. */
  lemma {:induction false} PutAppends<V>(es: seq<(string, V)>, key: string, v: V)
    requires !HasKey(es, key)
    ensures Put(es, key, v) == es + [(key, v)]
  {
    if es != [] {
      forall i | 0 <= i < |es[1..]| ensures es[1..][i].0 != key {
        assert es[1..][i] == es[i + 1];
      }
      PutAppends(es[1..], key, v);
      assert es == [es[0]] + es[1..];
    }
  }

  /** The entries after `obj[key] = v`: in place when the key is present,
      appended otherwise. Either way the keys stay distinct. */
  lemma PutShape<V>(es: seq<(string, V)>, key: string, v: V)
    requires KeysDistinct(es)
    ensures KeysDistinct(Put(es, key, v))
    ensures |Put(es, key, v)| == if HasKey(es, key) then |es| else |es| + 1
    ensures forall j :: 0 <= j < |es| && es[j].0 != key ==> Put(es, key, v)[j] == es[j]
    ensures forall j :: 0 <= j < |Put(es, key, v)| && Put(es, key, v)[j].0 != key ==> j < |es|
  {
    if HasKey(es, key) {
      var i :| 0 <= i < |es| && es[i].0 == key;
      PutInPlace(es, key, v, i);
    } else {
      PutAppends(es, key, v);
    }
  }

  /** After `obj[key] = v`, reading `key` gives `v`. */
  lemma LookupPutSame<V>(es: seq<(string, V)>, key: string, v: V)
    requires KeysDistinct(es)
    ensures Lookup(Put(es, key, v), key) == Some(v)
  {
    var es' := Put(es, key, v);
    PutShape(es, key, v);
    LookupSpec(es', key);
    if HasKey(es, key) {
      var i :| 0 <= i < |es| && es[i].0 == key;
      PutInPlace(es, key, v, i);
      assert es'[i] == (key, v);
    } else {
      PutAppends(es, key, v);
      assert es'[|es|] == (key, v);
    }
  }

  /** After `obj[key] = v`, every other key reads as before. */
  lemma LookupPutOther<V>(es: seq<(string, V)>, key: string, v: V, k: string)
    requires KeysDistinct(es)
    requires k != key
    ensures Lookup(Put(es, key, v), k) == Lookup(es, k)
  {
    var es' := Put(es, key, v);
    PutShape(es, key, v);
    LookupSpec(es, k);
    LookupSpec(es', k);
    if HasKey(es', k) {
      var j :| 0 <= j < |es'| && es'[j].0 == k;
      assert es'[j] == es[j];
    } else {
      forall j | 0 <= j < |es| ensures es[j].0 != k {
        if es[j].0 != key {
          assert es'[j] == es[j];
        }
      }
    }
  }

  /** After `obj[key] = v`, reading `key` gives `v` and every other key
      reads as before; the keys stay distinct. */
  lemma LookupPut<V>(es: seq<(string, V)>, key: string, v: V, k: string)
    requires KeysDistinct(es)
    ensures KeysDistinct(Put(es, key, v))
    ensures Lookup(Put(es, key, v), k) == if k == key then Some(v) else Lookup(es, k)
  {
    PutShape(es, key, v);
    if k == key {
      LookupPutSame(es, key, v);
    } else {
      LookupPutOther(es, key, v, k);
    }
  }

  /** `_.values(obj)`: the values in key order. */
  function Values<V>(es: seq<(string, V)>): seq<V>
  {
    if es == [] then [] else [es[0].1] + Values(es[1..])
  }

  lemma {:induction false} ValuesAt<V>(es: seq<(string, V)>)
    ensures |Values(es)| == |es|
    ensures forall i :: 0 <= i < |es| ==> Values(es)[i] == es[i].1
  {
    if es != [] {
      ValuesAt(es[1..]);
      assert forall i :: 1 <= i < |es| ==> es[1..][i - 1] == es[i];
    }
  }

  /** `_.values` after `obj[key] = v`: the old value of a present key is
      replaced where it stood, a new key's value comes last. */
  lemma ValuesOfPut<V>(es: seq<(string, V)>, key: string, v: V)
    requires KeysDistinct(es)
    ensures |Values(es)| == |es|
    ensures forall i :: 0 <= i < |es| && es[i].0 == key ==> Values(Put(es, key, v)) == Values(es)[i := v]
    ensures !HasKey(es, key) ==> Values(Put(es, key, v)) == Values(es) + [v]
  {
    ValuesAt(es);
    forall i | 0 <= i < |es| && es[i].0 == key ensures Values(Put(es, key, v)) == Values(es)[i := v] {
      PutInPlace(es, key, v, i);
      ValuesAt(es[i := (key, v)]);
    }
    if !HasKey(es, key) {
      PutAppends(es, key, v);
      ValuesAt(es + [(key, v)]);
    }
  }
}
