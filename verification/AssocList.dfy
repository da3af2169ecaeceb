/** The value of a map: an association list, as in dpdk-nfs/nf/lib/containers/map-impl.h. */
module AssocList {

  type Alist<K> = seq<(K, int)>

  predicate Has<K(==)>(m: Alist<K>, k: K) {
    m != [] && (m[0].0 == k || Has(m[1..], k))
  }

  function Get<K(==)>(m: Alist<K>, k: K): int {
    if m == [] then 0 else if m[0].0 == k then m[0].1 else Get(m[1..], k)
  }

  function Put<K>(m: Alist<K>, k: K, v: int): Alist<K> {
    [(k, v)] + m
  }

  function Erase<K(==)>(m: Alist<K>, k: K): Alist<K> {
    if m == [] then [] else if m[0].0 == k then m[1..] else [m[0]] + Erase(m[1..], k)
  }

  function EraseAll<K(==)>(m: Alist<K>, keys: seq<K>): Alist<K> {
    if keys == [] then m else Erase(EraseAll(m, keys[1..]), keys[0])
  }

  ghost predicate NoDupKeys<K>(m: Alist<K>) {
    forall i, j :: 0 <= i < j < |m| ==> m[i].0 != m[j].0
  }

  lemma {:induction false} HasIsMember<K>(m: Alist<K>, k: K)
    ensures Has(m, k) <==> exists i :: 0 <= i < |m| && m[i].0 == k
  {
    if m != [] {
      HasIsMember(m[1..], k);
      if Has(m[1..], k) {
        var i :| 0 <= i < |m[1..]| && m[1..][i].0 == k;
        assert m[i + 1].0 == k;
      }
      if i :| 0 <= i < |m| && m[i].0 == k && m[0].0 != k {
        assert m[1..][i - 1].0 == k;
      }
    }
  }

  lemma {:induction false} GetAt<K>(m: Alist<K>, i: nat)
    requires NoDupKeys(m) && i < |m|
    ensures Has(m, m[i].0) && Get(m, m[i].0) == m[i].1
  {
    if i > 0 {
      assert m[0].0 != m[i].0;
      GetAt(m[1..], i - 1);
    }
  }

  /** Without duplicate keys, a pair is in the list exactly when the key has that value. */
  lemma PairIsBinding<K>(m: Alist<K>, k: K, v: int)
    requires NoDupKeys(m)
    ensures (k, v) in m <==> Has(m, k) && Get(m, k) == v
  {
    HasIsMember(m, k);
    if (k, v) in m {
      var i :| 0 <= i < |m| && m[i] == (k, v);
      GetAt(m, i);
    }
    if Has(m, k) {
      var i :| 0 <= i < |m| && m[i].0 == k;
      GetAt(m, i);
      assert m[i] == (k, m[i].1);
    }
  }

  lemma {:induction false} EraseMember<K>(m: Alist<K>, k: K, p: (K, int))
    requires NoDupKeys(m)
    ensures p in Erase(m, k) <==> p in m && p.0 != k
  {
    if m != [] {
      var rest := m[1..];
      assert m == [m[0]] + rest;
      EraseMember(rest, k, p);
      if m[0].0 == k && p in rest {
        var i :| 0 <= i < |rest| && rest[i] == p;
        assert m[i + 1] == p;
      }
    }
  }

  lemma {:induction false} EraseLength<K>(m: Alist<K>, k: K)
    ensures |Erase(m, k)| == |m| - if Has(m, k) then 1 else 0
  {
    if m != [] {
      EraseLength(m[1..], k);
    }
  }

  lemma {:induction false} EraseKeepsNoDups<K>(m: Alist<K>, k: K)
    requires NoDupKeys(m)
    ensures NoDupKeys(Erase(m, k))
  {
    if m != [] {
      var rest := m[1..];
      var e := Erase(rest, k);
      EraseKeepsNoDups(rest, k);
      forall j | 0 <= j < |e|
        ensures m[0].0 != e[j].0
      {
        var p := e[j];
        EraseMember(rest, k, p);
        var i :| 0 <= i < |rest| && rest[i] == p;
        assert m[i + 1] == p;
      }
    }
  }

  lemma {:induction false} EraseKeepsOthers<K>(m: Alist<K>, k: K, x: K)
    requires x != k
    ensures Has(Erase(m, k), x) == Has(m, x) && Get(Erase(m, k), x) == Get(m, x)
  {
    if m != [] {
      EraseKeepsOthers(m[1..], k, x);
      assert ([m[0]] + Erase(m[1..], k))[1..] == Erase(m[1..], k);
    }
  }

  /** Erasing a key drops that key and nothing else. */
  lemma EraseDrops<K>(m: Alist<K>, k: K)
    requires NoDupKeys(m)
    ensures NoDupKeys(Erase(m, k)) && !Has(Erase(m, k), k)
    ensures |Erase(m, k)| == |m| - if Has(m, k) then 1 else 0
    ensures forall p :: p in Erase(m, k) <==> p in m && p.0 != k
  {
    EraseLength(m, k);
    EraseKeepsNoDups(m, k);
    forall p
      ensures p in Erase(m, k) <==> p in m && p.0 != k
    {
      EraseMember(m, k, p);
    }
    HasIsMember(Erase(m, k), k);
    if i :| 0 <= i < |Erase(m, k)| && Erase(m, k)[i].0 == k {
      EraseMember(m, k, Erase(m, k)[i]);
      assert false;
    }
  }

  lemma PutAdds<K>(m: Alist<K>, k: K, v: int)
    requires NoDupKeys(m) && !Has(m, k)
    ensures NoDupKeys(Put(m, k, v))
    ensures Has(Put(m, k, v), k) && Get(Put(m, k, v), k) == v
    ensures forall x :: x != k ==> Has(Put(m, k, v), x) == Has(m, x) && Get(Put(m, k, v), x) == Get(m, x)
  {
    HasIsMember(m, k);
    assert Put(m, k, v)[1..] == m;
  }

  /** Erasing one more key at the end of the list of keys. */
  lemma {:induction false} EraseAnotherOne<K>(m: Alist<K>, keys: seq<K>, k: K)
    ensures Erase(EraseAll(m, keys), k) == EraseAll(m, keys + [k])
  {
    if keys == [] {
      assert [k][1..] == [];
    } else {
      EraseAnotherOne(m, keys[1..], k);
      assert (keys + [k])[1..] == keys[1..] + [k];
      EraseCommutes(EraseAll(m, keys[1..]), keys[0], k);
    }
  }

  lemma {:induction false} EraseCommutes<K>(m: Alist<K>, a: K, b: K)
    ensures Erase(Erase(m, a), b) == Erase(Erase(m, b), a)
  {
    if m != [] {
      EraseCommutes(m[1..], a, b);
      var e, f := [m[0]] + Erase(m[1..], a), [m[0]] + Erase(m[1..], b);
      assert e[1..] == Erase(m[1..], a) && f[1..] == Erase(m[1..], b);
    }
  }

  lemma {:induction false} EraseAllDrops<K>(m: Alist<K>, keys: seq<K>)
    requires NoDupKeys(m)
    ensures NoDupKeys(EraseAll(m, keys))
    ensures forall p :: p in EraseAll(m, keys) <==> p in m && p.0 !in keys
  {
    if keys != [] {
      var inner := EraseAll(m, keys[1..]);
      EraseAllDrops(m, keys[1..]);
      EraseKeepsNoDups(inner, keys[0]);
      forall p
        ensures p in EraseAll(m, keys) <==> p in m && p.0 !in keys
      {
        EraseMember(inner, keys[0], p);
        assert p.0 in keys <==> p.0 == keys[0] || p.0 in keys[1..];
      }
    }
  }
}
