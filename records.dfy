/** JavaScript objects with string keys, as the deck code builds and reads
    them: the entries in the order their keys were first assigned, each key
    once. Assigning to a key that is present overwrites its value where it
    stands; assigning to a new key appends it. */
module Records {
  import opened Strings

  type Record<V> = seq<(string, V)>

  function Keys<V>(r: Record<V>): (ks: seq<string>)
    ensures |ks| == |r| && forall i | 0 <= i < |r| :: ks[i] == r[i].0
  {
    seq(|r|, i requires 0 <= i < |r| => r[i].0)
  }

  /** No key appears twice: what every object satisfies. */
  predicate UniqueKeys<V>(r: Record<V>)
  {
    forall i, j | 0 <= i < j < |r| :: r[i].0 != r[j].0
  }

  /** `r[k]`, with `None` for a key that is not present. */
  function Get<V>(r: Record<V>, k: string): (v: Option<V>)
    ensures v.None? <==> k !in Keys(r)
    decreases |r|
  {
    if |r| == 0 then None
    else if r[0].0 == k then Some(r[0].1)
    else
      assert Keys(r) == [r[0].0] + Keys(r[1..]);
      Get(r[1..], k)
  }

  /** `r[k] = v`. */
  function Put<V>(r: Record<V>, k: string, v: V): Record<V>
    decreases |r|
  {
    if |r| == 0 then [(k, v)]
    else if r[0].0 == k then [(k, v)] + r[1..]
    else [r[0]] + Put(r[1..], k, v)
  }

  /** `_.fromPairs(pairs)`: each pair assigned in turn. */
  function FromPairs<V>(pairs: seq<(string, V)>): Record<V>
    decreases |pairs|
  {
    if |pairs| == 0 then []
    else
      var last := pairs[|pairs| - 1];
      Put(FromPairs(pairs[..|pairs| - 1]), last.0, last.1)
  }

  /** The value of the last pair with key `k`. */
  function LastValue<V>(pairs: seq<(string, V)>, k: string): (v: Option<V>)
    ensures v.None? <==> forall i | 0 <= i < |pairs| :: pairs[i].0 != k
    ensures v.Some? ==> exists i | 0 <= i < |pairs| ::
              pairs[i] == (k, v.value) && forall j | i < j < |pairs| :: pairs[j].0 != k
    decreases |pairs|
  {
    if |pairs| == 0 then None
    else
      var n := |pairs| - 1;
      if pairs[n].0 == k then Some(pairs[n].1)
      else
        var v := LastValue(pairs[..n], k);
        assert forall i | 0 <= i < n :: pairs[..n][i] == pairs[i];
        v
  }

  /** The keys in the order of their first occurrence, each once. */
  function FirstOccurrences(ks: seq<string>): seq<string>
    decreases |ks|
  {
    if |ks| == 0 then []
    else
      var front := FirstOccurrences(ks[..|ks| - 1]);
      if ks[|ks| - 1] in ks[..|ks| - 1] then front else front + [ks[|ks| - 1]]
  }

  // ---------------------------------------------------------------------
  // Assignment
  // ---------------------------------------------------------------------

  lemma {:induction false} KeysCons<V>(e: (string, V), r: Record<V>)
    ensures Keys([e] + r) == [e.0] + Keys(r)
  {
  }

  /** The assigned key reads back the assigned value; every other key reads
      as before. */
  lemma {:induction false} PutGet<V>(r: Record<V>, k: string, v: V, k2: string)
    ensures Get(Put(r, k, v), k2) == if k2 == k then Some(v) else Get(r, k2)
    decreases |r|
  {
    if |r| > 0 && r[0].0 != k {
      PutGet(r[1..], k, v, k2);
      assert Put(r, k, v)[1..] == Put(r[1..], k, v);
    } else if |r| > 0 {
      assert ([(k, v)] + r[1..])[1..] == r[1..];
    }
  }

  /** A present key keeps its place; a new key goes last. */
  lemma {:induction false} PutKeys<V>(r: Record<V>, k: string, v: V)
    ensures Keys(Put(r, k, v)) == if k in Keys(r) then Keys(r) else Keys(r) + [k]
    decreases |r|
  {
    if |r| > 0 {
      KeysCons(r[0], r[1..]);
      assert r == [r[0]] + r[1..];
      if r[0].0 == k {
        KeysCons((k, v), r[1..]);
      } else {
        PutKeys(r[1..], k, v);
        KeysCons(r[0], Put(r[1..], k, v));
      }
    }
  }

  /** Assignment never makes a key appear twice. */
  lemma {:induction false} PutUnique<V>(r: Record<V>, k: string, v: V)
    requires UniqueKeys(r)
    ensures UniqueKeys(Put(r, k, v))
  {
    PutKeys(r, k, v);
    var r' := Put(r, k, v);
    var ks, ks' := Keys(r), Keys(r');
    if k !in ks {
      forall i, j | 0 <= i < j < |r'| ensures r'[i].0 != r'[j].0 {
        assert r'[i].0 == ks'[i] && r'[j].0 == ks'[j];
        if j == |ks| {
          assert ks'[i] == ks[i];
        } else {
          assert ks'[i] == ks[i] && ks'[j] == ks[j];
        }
      }
    } else {
      forall i, j | 0 <= i < j < |r'| ensures r'[i].0 != r'[j].0 {
        assert r'[i].0 == ks'[i] == ks[i] && r'[j].0 == ks'[j] == ks[j];
      }
    }
  }

  // ---------------------------------------------------------------------
  // fromPairs
  // ---------------------------------------------------------------------

  /** The object `fromPairs` builds has each key once. */
  lemma {:induction false} FromPairsUnique<V>(pairs: seq<(string, V)>)
    ensures UniqueKeys(FromPairs(pairs))
    decreases |pairs|
  {
    if |pairs| > 0 {
      var last := pairs[|pairs| - 1];
      FromPairsUnique(pairs[..|pairs| - 1]);
      PutUnique(FromPairs(pairs[..|pairs| - 1]), last.0, last.1);
    }
  }

  /** Each key reads as the value of its last pair: a later duplicate wins. */
  lemma {:induction false} FromPairsGet<V>(pairs: seq<(string, V)>, k: string)
    ensures Get(FromPairs(pairs), k) == LastValue(pairs, k)
    decreases |pairs|
  {
    if |pairs| > 0 {
      var last := pairs[|pairs| - 1];
      FromPairsGet(pairs[..|pairs| - 1], k);
      PutGet(FromPairs(pairs[..|pairs| - 1]), last.0, last.1, k);
    }
  }

  /** The keys come in the order of their first pair. */
  lemma {:induction false} FromPairsKeys<V>(pairs: seq<(string, V)>)
    ensures Keys(FromPairs(pairs)) == FirstOccurrences(Keys(pairs))
    decreases |pairs|
  {
    if |pairs| > 0 {
      var n := |pairs| - 1;
      var front := pairs[..n];
      FromPairsKeys(front);
      PutKeys(FromPairs(front), pairs[n].0, pairs[n].1);
      assert Keys(pairs)[..n] == Keys(front);
      FirstOccurrencesSame(Keys(front));
    }
  }

  /** `FirstOccurrences` keeps every key and adds none. */
  lemma {:induction false} FirstOccurrencesSame(ks: seq<string>)
    ensures forall k :: k in FirstOccurrences(ks) <==> k in ks
    decreases |ks|
  {
    if |ks| > 0 {
      FirstOccurrencesSame(ks[..|ks| - 1]);
      assert ks == ks[..|ks| - 1] + [ks[|ks| - 1]];
    }
  }

  /** Without duplicate keys `fromPairs` keeps every pair, in order. */
  lemma {:induction false} FromPairsDistinct<V>(pairs: seq<(string, V)>)
    requires UniqueKeys(pairs)
    ensures FromPairs(pairs) == pairs
    decreases |pairs|
  {
    if |pairs| > 0 {
      var n := |pairs| - 1;
      var front := pairs[..n];
      assert UniqueKeys(front) by {
        forall i, j | 0 <= i < j < |front| ensures front[i].0 != front[j].0 {
          assert front[i] == pairs[i] && front[j] == pairs[j];
        }
      }
      FromPairsDistinct(front);
      assert pairs[n].0 !in Keys(front) by {
        forall i | 0 <= i < n ensures Keys(front)[i] != pairs[n].0 {
          assert front[i] == pairs[i];
        }
      }
      PutAppends(front, pairs[n].0, pairs[n].1);
      assert front + [pairs[n]] == pairs;
    }
  }

  /** Assigning a new key appends its entry. */
  lemma {:induction false} PutAppends<V>(r: Record<V>, k: string, v: V)
    requires k !in Keys(r)
    ensures Put(r, k, v) == r + [(k, v)]
    decreases |r|
  {
    if |r| > 0 {
      KeysCons(r[0], r[1..]);
      assert r == [r[0]] + r[1..];
      PutAppends(r[1..], k, v);
      assert [r[0]] + (r[1..] + [(k, v)]) == r + [(k, v)];
    }
  }

  /** `fromPairs` never yields more entries than it was given pairs. */
  lemma {:induction false} FromPairsLength<V>(pairs: seq<(string, V)>)
    ensures |FromPairs(pairs)| <= |pairs|
    decreases |pairs|
  {
    if |pairs| > 0 {
      var n := |pairs| - 1;
      FromPairsLength(pairs[..n]);
      PutKeys(FromPairs(pairs[..n]), pairs[n].0, pairs[n].1);
    }
  }

  /** A key's last pair gives the value it reads as. */
  lemma {:induction false} FromPairsGetAt<V>(pairs: seq<(string, V)>, i: nat)
    requires i < |pairs| && forall j | i < j < |pairs| :: pairs[j].0 != pairs[i].0
    ensures Get(FromPairs(pairs), pairs[i].0) == Some(pairs[i].1)
  {
    var k := pairs[i].0;
    FromPairsGet(pairs, k);
    var v := LastValue(pairs, k);
    var i' :| 0 <= i' < |pairs| && pairs[i'] == (k, v.value) && forall j | i' < j < |pairs| :: pairs[j].0 != k;
    assert i' == i;
  }

  /** A key no pair has is absent. */
  lemma {:induction false} FromPairsGetAbsent<V>(pairs: seq<(string, V)>, k: string)
    requires forall i | 0 <= i < |pairs| :: pairs[i].0 != k
    ensures Get(FromPairs(pairs), k) == None
  {
    FromPairsGet(pairs, k);
  }
}
