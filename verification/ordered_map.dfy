/** PHP arrays used as dictionaries: an association list whose order is the
    insertion order. The three ways the generator writes into such arrays are
    modelled here once:
    - `Put`      is `$a[$k] = $v`: replace in place, or append a new key;
    - `Union`    is `$a + $b` / `$a += $b`: keys already in `$a` win;
    - `Reverse`  is `array_reverse($a, true)`. */
module OrderedMap {

  import opened Wrappers

  type OMap<K, V> = seq<(K, V)>

  function Keys<K, V>(m: OMap<K, V>): (ks: seq<K>)
    ensures |ks| == |m|
    ensures forall i :: 0 <= i < |m| ==> ks[i] == m[i].0
  {
    if |m| == 0 then [] else [m[0].0] + Keys(m[1..])
  }

  /** No key occurs twice: what every PHP array satisfies. */
  predicate UniqueKeys<K(==), V>(m: OMap<K, V>) {
    forall i, j :: 0 <= i < j < |m| ==> m[i].0 != m[j].0
  }

  /** `$a[$k] ?? null`: the value stored under the first occurrence of `k`. */
  function Get<K(==), V>(m: OMap<K, V>, k: K): (r: Option<V>)
    ensures r.None? <==> k !in Keys(m)
  {
    if |m| == 0 then None
    else if m[0].0 == k then Some(m[0].1)
    else Get(m[1..], k)
  }

  lemma GetAppend<K, V>(m: OMap<K, V>, e: (K, V), k: K)
    ensures Keys(m + [e]) == Keys(m) + [e.0]
    ensures Get(m + [e], k) == if k in Keys(m) then Get(m, k) else if k == e.0 then Some(e.1) else None
  {
    if |m| > 0 {
      assert (m + [e])[1..] == m[1..] + [e];
      GetAppend(m[1..], e, k);
    }
  }

  lemma GetAt<K, V>(m: OMap<K, V>, i: nat)
    requires UniqueKeys(m) && i < |m|
    ensures Get(m, m[i].0) == Some(m[i].1)
  {
    if i > 0 {
      GetAt(m[1..], i - 1);
    }
  }

  /** `$a[$k] = $v`. */
  function Put<K(==, !new), V>(m: OMap<K, V>, k: K, v: V): (r: OMap<K, V>)
    ensures Get(r, k) == Some(v)
    ensures forall j :: j != k ==> Get(r, j) == Get(m, j)
    ensures k in Keys(m) ==> Keys(r) == Keys(m)
    ensures k !in Keys(m) ==> Keys(r) == Keys(m) + [k]
    ensures UniqueKeys(m) ==> UniqueKeys(r)
  {
    if |m| == 0 then [(k, v)]
    else
      var head := if m[0].0 == k then (k, v) else m[0];
      var rest := if m[0].0 == k then m[1..] else Put(m[1..], k, v);
      PutStep(m, k, v, head, rest);
      [head] + rest
  }

  /** One step of `Put`: the first entry is replaced when it holds `k`,
      otherwise the write goes on in the rest. */
  lemma PutStep<K, V>(m: OMap<K, V>, k: K, v: V, head: (K, V), rest: OMap<K, V>)
    requires |m| > 0
    requires head == if m[0].0 == k then (k, v) else m[0]
    requires m[0].0 == k ==> rest == m[1..]
    requires m[0].0 != k ==> && Get(rest, k) == Some(v)
                             && (forall j :: j != k ==> Get(rest, j) == Get(m[1..], j))
                             && (k in Keys(m[1..]) ==> Keys(rest) == Keys(m[1..]))
                             && (k !in Keys(m[1..]) ==> Keys(rest) == Keys(m[1..]) + [k])
    ensures Get([head] + rest, k) == Some(v)
    ensures forall j :: j != k ==> Get([head] + rest, j) == Get(m, j)
    ensures k in Keys(m) ==> Keys([head] + rest) == Keys(m)
    ensures k !in Keys(m) ==> Keys([head] + rest) == Keys(m) + [k]
    ensures UniqueKeys(m) ==> UniqueKeys([head] + rest)
  {
    assert m == [m[0]] + m[1..];
    KeysCons(m[0], m[1..]);
    KeysCons(head, rest);
    if m[0].0 != k {
      SeqAssoc([m[0].0], Keys(m[1..]), [k]);
    }
    UniqueByKeys(m, [head] + rest, k);
  }

  /** Writing one key keeps keys unique, judged from the keys alone. */
  lemma UniqueByKeys<K, V>(m: OMap<K, V>, r: OMap<K, V>, k: K)
    requires k in Keys(m) ==> Keys(r) == Keys(m)
    requires k !in Keys(m) ==> Keys(r) == Keys(m) + [k]
    ensures UniqueKeys(m) ==> UniqueKeys(r)
  {
    if UniqueKeys(m) {
      forall i, j | 0 <= i < j < |r| ensures r[i].0 != r[j].0 {
        assert r[i].0 == Keys(r)[i] && r[j].0 == Keys(r)[j];
        if j < |m| {
          assert Keys(m)[i] == m[i].0 && Keys(m)[j] == m[j].0;
        } else {
          assert Keys(r)[j] == k && Keys(m)[i] == m[i].0;
        }
      }
    }
  }

  lemma KeysCons<K, V>(e: (K, V), m: OMap<K, V>)
    ensures Keys([e] + m) == [e.0] + Keys(m)
    ensures forall j :: Get([e] + m, j) == if e.0 == j then Some(e.1) else Get(m, j)
  {
    assert ([e] + m)[0] == e && ([e] + m)[1..] == m;
  }

  /** Writing a key that is not yet present appends it. */
  lemma {:induction false} PutFresh<K(!new), V>(m: OMap<K, V>, k: K, v: V)
    requires k !in Keys(m)
    ensures Put(m, k, v) == m + [(k, v)]
    decreases |m|
  {
    if |m| > 0 {
      assert m == [m[0]] + m[1..];
      KeysCons(m[0], m[1..]);
      PutFresh(m[1..], k, v);
      SeqAssoc([m[0]], m[1..], [(k, v)]);
    }
  }

  /** Concatenation is associative; stated once so that long chains of
      appends need not be regrouped by the solver. */
  lemma SeqAssoc<T>(a: seq<T>, b: seq<T>, c: seq<T>)
    ensures a + b + c == a + (b + c)
  {
  }

  /** Being a prefix is transitive. */
  lemma PrefixTrans<T>(a: seq<T>, b: seq<T>, c: seq<T>)
    requires a <= b && b <= c
    ensures a <= c
  {
    assert a == b[..|a|] && b == c[..|b|];
    assert c[..|b|][..|a|] == c[..|a|];
  }

  lemma PrefixMember<T>(a: seq<T>, b: seq<T>, x: T)
    requires a <= b && x in a
    ensures x in b
  {
    var j :| 0 <= j < |a| && a[j] == x;
    assert b[j] == x;
  }

  /** Adds `e` unless its key is already present (`$a += [k => v]`). */
  function PutAbsent<K(==, !new), V>(m: OMap<K, V>, k: K, v: V): (r: OMap<K, V>)
    ensures Get(r, k) == if k in Keys(m) then Get(m, k) else Some(v)
    ensures forall j :: j != k ==> Get(r, j) == Get(m, j)
    ensures Keys(r) == if k in Keys(m) then Keys(m) else Keys(m) + [k]
    ensures UniqueKeys(m) ==> UniqueKeys(r)
  {
    if k in Keys(m) then m
    else
      GetAppend(m, (k, v), k);
      forall j | j != k
        ensures Get(m + [(k, v)], j) == Get(m, j)
      {
        GetAppend(m, (k, v), j);
      }
      m + [(k, v)]
  }

  /** `$a + $b`: every key of `$a` keeps its value and position; keys only in
      `$b` follow, in `$b`'s order. */
  function Union<K(==, !new), V>(m: OMap<K, V>, n: OMap<K, V>): (r: OMap<K, V>)
    ensures forall k :: Get(r, k) == if k in Keys(m) then Get(m, k) else Get(n, k)
    ensures Keys(m) <= Keys(r)
    ensures forall k :: k in Keys(r) <==> k in Keys(m) || k in Keys(n)
    ensures UniqueKeys(m) ==> UniqueKeys(r)
    decreases |n|
  {
    if |n| == 0 then m
    else
      var m' := PutAbsent(m, n[0].0, n[0].1);
      var r := Union(m', n[1..]);
      assert Keys(m) <= Keys(m');
      r
  }

  function RevSeq<T>(s: seq<T>): (r: seq<T>)
    ensures |r| == |s|
    ensures forall i :: 0 <= i < |s| ==> r[i] == s[|s| - 1 - i]
  {
    if |s| == 0 then [] else RevSeq(s[1..]) + [s[0]]
  }

  /** `array_reverse($a, true)`: same entries, opposite order. */
  function Reverse<K, V>(m: OMap<K, V>): (r: OMap<K, V>)
    ensures r == RevSeq(m)
    ensures Keys(r) == RevSeq(Keys(m))
    ensures UniqueKeys(m) ==> UniqueKeys(r)
  {
    RevSeq(m)
  }

  /** With unique keys, reversing changes the order and nothing else. */
  lemma ReverseGet<K, V>(m: OMap<K, V>, k: K)
    requires UniqueKeys(m)
    ensures Get(Reverse(m), k) == Get(m, k)
  {
    var r := Reverse(m);
    if k in Keys(m) {
      var i :| 0 <= i < |m| && m[i].0 == k;
      GetAt(m, i);
      GetAt(r, |m| - 1 - i);
    } else {
      assert k !in Keys(r);
    }
  }

  /** Reversing keeps the keys; the first entry becomes the last. */
  lemma ReverseKeys<K, V>(m: OMap<K, V>)
    ensures forall k :: k in Keys(Reverse(m)) <==> k in Keys(m)
    ensures |m| >= 1 ==> Reverse(m)[|m| - 1] == m[0]
  {
    RevSeqMembers(Keys(m));
  }

  /** Reversing an array that extends `m` puts `m`'s keys, reversed, at the
      end. */
  lemma ReverseTail<K, V>(m: OMap<K, V>, all: OMap<K, V>)
    requires Keys(m) <= Keys(all)
    ensures |m| <= |all|
    ensures forall i :: |all| - |m| <= i < |all| ==> Reverse(all)[i].0 == m[|all| - 1 - i].0
  {
    forall i | |all| - |m| <= i < |all| ensures Reverse(all)[i].0 == m[|all| - 1 - i].0 {
      assert Keys(m)[|all| - 1 - i] == Keys(all)[|all| - 1 - i];
    }
  }

  /** With unique keys, an entry past the end of a prefix `m` carries none of
      `m`'s keys. */
  lemma LaterKeyFresh<K, V>(m: OMap<K, V>, all: OMap<K, V>, j: int)
    requires Keys(m) <= Keys(all) && UniqueKeys(all) && |m| <= j < |all|
    ensures all[j].0 !in Keys(m)
  {
    forall l | 0 <= l < |m| ensures Keys(m)[l] != all[j].0 {
      assert Keys(m)[l] == Keys(all)[l] == all[l].0;
    }
  }

  /** Entry `i` of the reversed array, for `i` before the last `|m|` places,
      is a key of `all` that `m` lacks. */
  lemma ReverseEarlyKey<K, V>(m: OMap<K, V>, all: OMap<K, V>, i: int)
    requires Keys(m) <= Keys(all) && UniqueKeys(all) && 0 <= i < |all| - |m|
    ensures Reverse(all)[i].0 in Keys(all) && Reverse(all)[i].0 !in Keys(m)
  {
    ReverseEntryKey(all);
    LaterKeyFresh(m, all, |all| - 1 - i);
  }

  /** Entry `i` of the reversed array carries the key at the mirrored place. */
  lemma ReverseEntryKey<K, V>(m: OMap<K, V>)
    ensures forall i :: 0 <= i < |m| ==> Reverse(m)[i].0 == Keys(m)[|m| - 1 - i]
  {
  }

  lemma RevSeqMembers<T>(s: seq<T>)
    ensures forall x :: x in RevSeq(s) <==> x in s
  {
    var r := RevSeq(s);
    forall x | x in s ensures x in r {
      var i :| 0 <= i < |s| && s[i] == x;
      assert r[|s| - 1 - i] == x;
    }
    forall x | x in r ensures x in s {
      var i :| 0 <= i < |r| && r[i] == x;
      assert s[|s| - 1 - i] == x;
    }
  }

  /** Reversing twice restores the original array. */
  lemma ReverseReverse<K, V>(m: OMap<K, V>)
    ensures Reverse(Reverse(m)) == m
  {
  }
}
