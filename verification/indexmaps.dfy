/** Insertion-ordered maps with string keys (`IndexMap`, and JSON objects), as
    association lists: a lookup finds the entry for a key, and an insert replaces
    that entry in place or appends a new one at the end. */
module IndexMaps {
  import opened Wrappers
  import opened Seqs

  type IndexMap<V> = seq<(string, V)>

  function Keys<V>(m: IndexMap<V>): (r: seq<string>)
    ensures |r| == |m|
    ensures forall i :: 0 <= i < |m| ==> r[i] == m[i].0
  {
    seq(|m|, i requires 0 <= i < |m| => m[i].0)
  }

  /** The position of the first occurrence of `k`. */
  function FindKey(keys: seq<string>, k: string): (r: Option<nat>)
    ensures r.None? <==> k !in keys
    ensures r.Some? ==> r.value < |keys| && keys[r.value] == k
    ensures r.Some? ==> forall j :: 0 <= j < r.value ==> keys[j] != k
    decreases |keys|
  {
    if |keys| == 0 then None
    else if keys[0] == k then Some(0)
    else
      match FindKey(keys[1..], k)
      case Some(i) => Some(i + 1)
      case None => None
  }

  /** Appending another key does not move the first occurrence of `q`. */
  lemma {:induction false} FindKeyAppend(keys: seq<string>, k: string, q: string)
    requires q != k
    ensures FindKey(keys + [k], q) == FindKey(keys, q)
    decreases |keys|
  {
    if |keys| > 0 && keys[0] != q {
      assert (keys + [k])[1..] == keys[1..] + [k];
      FindKeyAppend(keys[1..], k, q);
    }
  }

  /** The value of the first entry for `k`. */
  function Get<V>(m: IndexMap<V>, k: string): (r: Option<V>)
    ensures r.Some? <==> k in Keys(m)
    ensures r.Some? ==> exists i :: 0 <= i < |m| && m[i] == (k, r.value)
  {
    match FindKey(Keys(m), k)
    case Some(i) => Some(m[i].1)
    case None => None
  }

  /** `insert`: a present key keeps its position and takes the new value; a new key
      goes at the end. */
  function Insert<V>(m: IndexMap<V>, k: string, v: V): (r: IndexMap<V>)
    ensures k !in Keys(m) ==> r == m + [(k, v)]
    ensures k in Keys(m) ==> Keys(r) == Keys(m) && |r| == |m|
    ensures k in Keys(r)
  {
    match FindKey(Keys(m), k)
    case Some(i) =>
      var r := m[i := (k, v)];
      assert Keys(r) == Keys(m);
      r
    case None =>
      var r := m + [(k, v)];
      assert Keys(r)[|m|] == k;
      r
  }

  /** After an insert the key maps to the new value and every other key keeps its
      value. */
  lemma GetInsert<V>(m: IndexMap<V>, k: string, v: V, q: string)
    ensures Get(Insert(m, k, v), q) == if q == k then Some(v) else Get(m, q)
  {
    var r := Insert(m, k, v);
    if k in Keys(m) {
      assert Keys(r) == Keys(m);
    } else {
      assert Keys(r) == Keys(m) + [k];
      if q != k {
        FindKeyAppend(Keys(m), k, q);
      }
    }
  }

  /** Inserting keeps keys unique. */
  lemma InsertDistinct<V>(m: IndexMap<V>, k: string, v: V)
    requires Distinct(Keys(m))
    ensures Distinct(Keys(Insert(m, k, v)))
  {
    if k !in Keys(m) {
      assert Keys(Insert(m, k, v)) == Keys(m) + [k];
    }
  }

  /** Building a map by inserting pairs in order. */
  function FromPairs<V>(pairs: seq<(string, V)>): (r: IndexMap<V>)
    ensures Distinct(Keys(r))
    decreases |pairs|
  {
    if |pairs| == 0 then []
    else
      var prev := FromPairs(pairs[..|pairs| - 1]);
      InsertDistinct(prev, pairs[|pairs| - 1].0, pairs[|pairs| - 1].1);
      Insert(prev, pairs[|pairs| - 1].0, pairs[|pairs| - 1].1)
  }

  /** Reference definition: the value of the last pair for `k`. */
  function LastFor<V>(pairs: seq<(string, V)>, k: string): Option<V>
    decreases |pairs|
  {
    if |pairs| == 0 then None
    else if pairs[|pairs| - 1].0 == k then Some(pairs[|pairs| - 1].1)
    else LastFor(pairs[..|pairs| - 1], k)
  }

  /** The value a key ends up with is the last one inserted for it. */
  lemma {:induction false} GetFromPairs<V>(pairs: seq<(string, V)>, k: string)
    ensures Get(FromPairs(pairs), k) == LastFor(pairs, k)
    decreases |pairs|
  {
    if |pairs| > 0 {
      var n := |pairs|;
      GetFromPairs(pairs[..n - 1], k);
      GetInsert(FromPairs(pairs[..n - 1]), pairs[n - 1].0, pairs[n - 1].1, k);
    }
  }

  /** A key has a last pair exactly when some pair carries it. */
  lemma {:induction false} LastForSome<V>(pairs: seq<(string, V)>, k: string)
    ensures LastFor(pairs, k).Some? <==> k in Keys(pairs)
    decreases |pairs|
  {
    if |pairs| > 0 {
      var init := pairs[..|pairs| - 1];
      LastForSome(init, k);
      assert Keys(pairs) == Keys(init) + [pairs[|pairs| - 1].0];
    }
  }

  /** The keys of a map built from pairs are the keys the pairs carry. */
  lemma FromPairsKeys<V>(pairs: seq<(string, V)>, k: string)
    ensures k in Keys(FromPairs(pairs)) <==> k in Keys(pairs)
  {
    GetFromPairs(pairs, k);
    LastForSome(pairs, k);
  }
}
