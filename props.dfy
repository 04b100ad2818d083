/**
 * Plain JavaScript objects as ordered key/value lists.  Every object the
 * modelled code builds keeps its keys distinct; `Set` is property
 * assignment (`o[k] = v`) and `Spread` is the object spread `{...a, ...b}`.
 */
module Props {
  import opened Wrappers

  type Props<V> = seq<(string, V)>

  /** The keys, in insertion order (`Object.keys`). */
  function Keys<V>(ps: Props<V>): (ks: seq<string>)
    ensures |ks| == |ps|
    ensures forall i :: 0 <= i < |ps| ==> ks[i] == ps[i].0
  {
    if ps == [] then [] else [ps[0].0] + Keys(ps[1..])
  }

  /** `k in o` for an own property. */
  predicate Has<V>(ps: Props<V>, k: string) {
    exists i :: 0 <= i < |ps| && ps[i].0 == k
  }

  predicate DistinctKeys<V>(ps: Props<V>) {
    forall i, j :: 0 <= i < j < |ps| ==> ps[i].0 != ps[j].0
  }

  /** `Object.keys(o).length`: each key counts once, however often it occurs. */
  function KeyCount<V>(ps: Props<V>): (n: nat)
    ensures n <= |ps|
    ensures ps != [] ==> n >= 1
    ensures DistinctKeys(ps) ==> n == |ps|
  {
    if ps == [] then 0
    else
      var init := ps[..|ps| - 1];
      assert DistinctKeys(ps) ==> DistinctKeys(init) && !Has(init, ps[|ps| - 1].0);
      KeyCount(init) + (if Has(init, ps[|ps| - 1].0) then 0 else 1)
  }

  /** Position of key `k`, when present (first occurrence). */
  function IndexOf<V>(ps: Props<V>, k: string): (r: Option<nat>)
    ensures r.Some? <==> Has(ps, k)
    ensures r.Some? ==> r.value < |ps| && ps[r.value].0 == k
    ensures r.Some? ==> forall j :: 0 <= j < r.value ==> ps[j].0 != k
  {
    if ps == [] then None
    else if ps[0].0 == k then Some(0)
    else match IndexOf(ps[1..], k)
      case None => None
      case Some(i) => Some(i + 1)
  }

  /** Property read `o[k]`; `None` is `undefined`. */
  function Lookup<V>(ps: Props<V>, k: string): (r: Option<V>)
    ensures r.Some? <==> Has(ps, k)
    ensures r.Some? ==> exists i :: 0 <= i < |ps| && ps[i] == (k, r.value)
  {
    match IndexOf(ps, k)
    case None => None
    case Some(i) => Some(ps[i].1)
  }

  lemma {:induction false} IndexOfAppend<V>(ps: Props<V>, k: string, v: V, k': string)
    ensures IndexOf(ps + [(k, v)], k') == if Has(ps, k') then IndexOf(ps, k') else if k' == k then Some(|ps|) else None
  {
    if ps != [] {
      assert (ps + [(k, v)])[1..] == ps[1..] + [(k, v)];
      IndexOfAppend(ps[1..], k, v, k');
    }
  }

  lemma {:induction false} IndexOfReplace<V>(ps: Props<V>, i: nat, v: V, k': string)
    requires i < |ps|
    ensures IndexOf(ps[i := (ps[i].0, v)], k') == IndexOf(ps, k')
  {
    if i > 0 {
      assert ps[i := (ps[i].0, v)][1..] == ps[1..][i - 1 := (ps[i].0, v)];
      IndexOfReplace(ps[1..], i - 1, v, k');
    }
  }

  /** Reading a property of an object after a new key was added last. */
  lemma LookupAppend<V>(ps: Props<V>, k: string, v: V, k': string)
    ensures Lookup(ps + [(k, v)], k') == if Has(ps, k') then Lookup(ps, k') else if k' == k then Some(v) else None
  {
    IndexOfAppend(ps, k, v, k');
  }

  /** In an object with distinct keys, reading the key at position `i` gives the value at `i`. */
  lemma LookupDistinct<V>(ps: Props<V>, i: nat)
    requires DistinctKeys(ps) && i < |ps|
    ensures Lookup(ps, ps[i].0) == Some(ps[i].1)
  {
    var j := IndexOf(ps, ps[i].0);
    assert Has(ps, ps[i].0);
    assert j.value == i;
  }

  /** Property assignment `o[k] = v`: an existing key keeps its place, a new key goes last. */
  function Set<V>(ps: Props<V>, k: string, v: V): (r: Props<V>)
    ensures Lookup(r, k) == Some(v)
    ensures forall k' :: k' != k ==> Lookup(r, k') == Lookup(ps, k')
    ensures Has(ps, k) ==> Keys(r) == Keys(ps)
    ensures !Has(ps, k) ==> r == ps + [(k, v)]
    ensures DistinctKeys(ps) ==> DistinctKeys(r)
  {
    match IndexOf(ps, k)
    case None =>
      AppendFacts(ps, k, v);
      ps + [(k, v)]
    case Some(i) =>
      ReplaceFacts(ps, i, v);
      ps[i := (k, v)]
  }

  lemma AppendFacts<V>(ps: Props<V>, k: string, v: V)
    requires !Has(ps, k)
    ensures Lookup(ps + [(k, v)], k) == Some(v)
    ensures forall k' :: k' != k ==> Lookup(ps + [(k, v)], k') == Lookup(ps, k')
    ensures DistinctKeys(ps) ==> DistinctKeys(ps + [(k, v)])
  {
    forall k' { LookupAppend(ps, k, v, k'); }
  }

  lemma ReplaceFacts<V>(ps: Props<V>, i: nat, v: V)
    requires i < |ps|
    ensures forall k' :: Lookup(ps[i := (ps[i].0, v)], k') == if IndexOf(ps, k') == Some(i) then Some(v) else Lookup(ps, k')
    ensures Keys(ps[i := (ps[i].0, v)]) == Keys(ps)
    ensures DistinctKeys(ps) ==> DistinctKeys(ps[i := (ps[i].0, v)])
  {
    var r := ps[i := (ps[i].0, v)];
    forall k' { IndexOfReplace(ps, i, v, k'); }
    assert forall j :: 0 <= j < |r| ==> r[j].0 == ps[j].0;
  }

  /** Object spread `{...a, ...b}`: `b`'s keys override `a`'s, one by one, in `b`'s order. */
  function Spread<V>(a: Props<V>, b: Props<V>): (r: Props<V>)
    ensures DistinctKeys(a) ==> DistinctKeys(r)
    decreases |b|
  {
    if b == [] then a else Spread(Set(a, b[0].0, b[0].1), b[1..])
  }

  /** What a read of the spread object gives: `b`'s value when `b` has the key, otherwise `a`'s. */
  lemma {:induction false} SpreadLookup<V>(a: Props<V>, b: Props<V>, k: string)
    requires DistinctKeys(b)
    ensures Lookup(Spread(a, b), k) == if Has(b, k) then Lookup(b, k) else Lookup(a, k)
    decreases |b|
  {
    if b != [] {
      var rest := b[1..];
      assert DistinctKeys(rest);
      SpreadLookup(Set(a, b[0].0, b[0].1), rest, k);
      LookupFirst(b, k);
      if k == b[0].0 {
        assert !Has(rest, k) by {
          forall j | 0 <= j < |rest| ensures rest[j].0 != k {
            assert rest[j] == b[j + 1];
          }
        }
      }
    }
  }

  /** Reading an object whose first key is known. */
  lemma LookupFirst<V>(ps: Props<V>, k: string)
    requires ps != []
    ensures Has(ps, k) <==> ps[0].0 == k || Has(ps[1..], k)
    ensures Lookup(ps, k) == if ps[0].0 == k then Some(ps[0].1) else Lookup(ps[1..], k)
  {
    if Has(ps[1..], k) {
      var j :| 0 <= j < |ps[1..]| && ps[1..][j].0 == k;
      assert ps[j + 1].0 == k;
    }
    if Has(ps, k) && ps[0].0 != k {
      var j :| 0 <= j < |ps| && ps[j].0 == k;
      assert ps[1..][j - 1].0 == k;
    }
  }
}
