/** A JavaScript object with string keys, as an association list in key
    insertion order: reading a key, assigning one (in place when present,
    appended when new), and the key list Object.keys and for-in walk. */
module Assoc {
  import opened Wrappers
  import opened Seqs

  type Assoc<V> = seq<(string, V)>

  function Keys<V>(m: Assoc<V>): (r: seq<string>)
    ensures |r| == |m| && forall i :: 0 <= i < |m| ==> r[i] == m[i].0
  {
    if m == [] then [] else [m[0].0] + Keys(m[1..])
  }

  /** No key appears twice, as in every JavaScript object. */
  predicate Unique<V>(m: Assoc<V>)
  {
    forall i, j :: 0 <= i < j < |m| ==> m[i].0 != m[j].0
  }

  /** obj[k]: the value stored under k, None for undefined. */
  function Get<V>(m: Assoc<V>, k: string): (r: Option<V>)
    ensures r.None? <==> k !in Keys(m)
    ensures r.Some? ==> exists i :: 0 <= i < |m| && m[i] == (k, r.value)
  {
    if m == [] then None
    else if m[0].0 == k then Some(m[0].1)
    else
      var r := Get(m[1..], k);
      assert r.Some? ==> exists i :: 0 <= i < |m[1..]| && m[1..][i] == (k, r.value);
      assert Keys(m) == [m[0].0] + Keys(m[1..]);
      r
  }

  lemma KeysCons<V>(e: (string, V), m: Assoc<V>)
    ensures Keys([e] + m) == [e.0] + Keys(m)
  {
    AppendFront([e], m);
  }

  lemma GetCons<V>(e: (string, V), m: Assoc<V>, k: string)
    ensures Get([e] + m, k) == if e.0 == k then Some(e.1) else Get(m, k)
  {
    AppendFront([e], m);
  }

  /** obj[k] = v: the key keeps its place when present and is appended
      when new; every other key keeps its value. */
  function Put<V>(m: Assoc<V>, k: string, v: V): (r: Assoc<V>)
    ensures Get(r, k) == Some(v)
    ensures forall k2 :: k2 != k ==> Get(r, k2) == Get(m, k2)
    ensures k in Keys(m) ==> Keys(r) == Keys(m)
    ensures k !in Keys(m) ==> Keys(r) == Keys(m) + [k]
    ensures Unique(m) ==> Unique(r)
    decreases |m|, 2
  {
    if m == [] then
      assert Keys([(k, v)]) == [k];
      [(k, v)]
    else if m[0].0 == k then
      PutHere(m, k, v);
      [(k, v)] + m[1..]
    else
      PutLater(m, k, v);
      [m[0]] + Put(m[1..], k, v)
  }

  /** Assigning the first key replaces its value in place. */
  lemma PutHere<V>(m: Assoc<V>, k: string, v: V)
    requires m != [] && m[0].0 == k
    ensures var r := [(k, v)] + m[1..];
      && Get(r, k) == Some(v)
      && (forall k2 :: k2 != k ==> Get(r, k2) == Get(m, k2))
      && Keys(r) == Keys(m) && k in Keys(m)
      && (Unique(m) ==> Unique(r))
  {
    var r := [(k, v)] + m[1..];
    HeadTail(m);
    GetCons((k, v), m[1..], k);
    forall k2 | k2 != k ensures Get(r, k2) == Get(m, k2) {
      GetCons((k, v), m[1..], k2);
      GetCons(m[0], m[1..], k2);
    }
    KeysCons((k, v), m[1..]);
    KeysCons(m[0], m[1..]);
    UniqueHead((k, v), m[1..]);
    UniqueHead(m[0], m[1..]);
  }

  /** Assigning a later key keeps the first entry and assigns in the rest. */
  lemma PutLater<V>(m: Assoc<V>, k: string, v: V)
    requires m != [] && m[0].0 != k
    ensures var r := [m[0]] + Put(m[1..], k, v);
      && Get(r, k) == Some(v)
      && (forall k2 :: k2 != k ==> Get(r, k2) == Get(m, k2))
      && (k in Keys(m) ==> Keys(r) == Keys(m))
      && (k !in Keys(m) ==> Keys(r) == Keys(m) + [k])
      && (Unique(m) ==> Unique(r))
    decreases |m|, 1
  {
    var rest := Put(m[1..], k, v);
    var r := [m[0]] + rest;
    HeadTail(m);
    GetCons(m[0], rest, k);
    forall k2 | k2 != k ensures Get(r, k2) == Get(m, k2) {
      GetCons(m[0], rest, k2);
      GetCons(m[0], m[1..], k2);
    }
    KeysCons(m[0], rest);
    KeysCons(m[0], m[1..]);
    AppendAssoc([m[0].0], Keys(m[1..]), [k]);
    UniqueHead(m[0], m[1..]);
    UniqueHead(m[0], rest);
  }

  /** A key list headed by e is unique exactly when the tail is and does not
      repeat e's key. */
  lemma UniqueHead<V>(e: (string, V), m: Assoc<V>)
    ensures Unique([e] + m) <==> Unique(m) && e.0 !in Keys(m)
  {
    var r := [e] + m;
    ConsAt(e, m);
    var ks := Keys(m);
    if Unique(r) {
      forall i, j | 0 <= i < j < |m| ensures m[i].0 != m[j].0 {
        assert r[i + 1].0 != r[j + 1].0;
      }
      forall i | 0 <= i < |m| ensures ks[i] != e.0 {
        assert r[0].0 != r[i + 1].0;
      }
    }
    if Unique(m) && e.0 !in ks {
      forall i, j | 0 <= i < j < |r| ensures r[i].0 != r[j].0 {
        if i == 0 {
          assert ks[j - 1] == m[j - 1].0;
        } else {
          assert r[i].0 == m[i - 1].0;
        }
      }
    }
  }

  /** Every entry after an assignment is the assigned one or an old one. */
  lemma {:induction false} PutFrom<V>(m: Assoc<V>, k: string, v: V)
    ensures forall e :: e in Put(m, k, v) ==> e == (k, v) || e in m
  {
    if m != [] && m[0].0 != k {
      PutFrom(m[1..], k, v);
      assert Put(m, k, v) == [m[0]] + Put(m[1..], k, v);
    }
  }
}
