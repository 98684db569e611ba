/**
 * A JavaScript plain object seen as an association list: keys in insertion order
 * (the order `Object.keys` reports) with their values. Assigning to an existing key
 * replaces its value in place; assigning to a new key appends it.
 */
module Dict {
  import opened JsValues

  type Dict<V> = seq<(string, V)>

  /** No key occurs twice, as in every JavaScript object. */
  ghost predicate Wf<V>(d: Dict<V>) {
    forall i, j :: 0 <= i < j < |d| ==> d[i].0 != d[j].0
  }

  predicate Has<V>(d: Dict<V>, k: string) {
    exists i :: 0 <= i < |d| && d[i].0 == k
  }

  /** `i` is the first position holding key `k`. */
  ghost predicate FirstAt<V>(d: Dict<V>, k: string, i: int) {
    0 <= i < |d| && d[i].0 == k && forall j :: 0 <= j < i ==> d[j].0 != k
  }

  function Keys<V>(d: Dict<V>): (ks: seq<string>)
    ensures |ks| == |d|
    ensures forall i :: 0 <= i < |d| ==> ks[i] == d[i].0
  {
    seq(|d|, i requires 0 <= i < |d| => d[i].0)
  }

  function IndexFrom<V>(d: Dict<V>, k: string, i: nat): (r: Option<nat>)
    requires i <= |d|
    requires forall j :: 0 <= j < i ==> d[j].0 != k
    ensures r.Some? ==> FirstAt(d, k, r.value)
    ensures r.None? ==> !Has(d, k)
    decreases |d| - i
  {
    if i == |d| then None
    else if d[i].0 == k then Some(i)
    else IndexFrom(d, k, i + 1)
  }

  /** The position of the first entry with key `k`, if any. */
  function IndexOf<V>(d: Dict<V>, k: string): (r: Option<nat>)
    ensures r.Some? ==> FirstAt(d, k, r.value)
    ensures r.None? <==> !Has(d, k)
  {
    IndexFrom(d, k, 0)
  }

  /** Property lookup `d[k]`: the value of the first entry with key `k`. */
  function Get<V>(d: Dict<V>, k: string): (r: Option<V>)
    ensures r.None? <==> !Has(d, k)
  {
    match IndexOf(d, k)
    case Some(i) => Some(d[i].1)
    case None => None
  }

  lemma GetAt<V>(d: Dict<V>, k: string, i: int)
    requires FirstAt(d, k, i)
    ensures Get(d, k) == Some(d[i].1)
  {
    assert d[i].0 == k;
    var j := IndexOf(d, k).value;
    assert FirstAt(d, k, j);
  }

  lemma GetWf<V>(d: Dict<V>, k: string, i: int)
    requires Wf(d) && 0 <= i < |d| && d[i].0 == k
    ensures Get(d, k) == Some(d[i].1)
  {
    GetAt(d, k, i);
  }

  /** Every value passed through `f`, keys and their order kept. */
  function MapValues<V, W>(d: Dict<V>, f: V -> W): (r: Dict<W>)
    ensures Keys(r) == Keys(d)
    ensures Wf(d) ==> Wf(r)
    ensures forall k :: Has(d, k) ==> Get(r, k) == Some(f(Get(d, k).value))
  {
    var r := seq(|d|, i requires 0 <= i < |d| => (d[i].0, f(d[i].1)));
    assert Keys(r) == Keys(d);
    assert forall k :: Has(d, k) ==> Get(r, k) == Some(f(Get(d, k).value)) by {
      forall k | Has(d, k) ensures Get(r, k) == Some(f(Get(d, k).value)) {
        var i := IndexOf(d, k).value;
        GetAt(d, k, i);
        assert FirstAt(r, k, i);
        GetAt(r, k, i);
      }
    }
    r
  }

  /** Property assignment `d[k] = v`. */
  function Put<V>(d: Dict<V>, k: string, v: V): (r: Dict<V>)
    ensures Has(d, k) ==> |r| == |d| && Keys(r) == Keys(d)
    ensures !Has(d, k) ==> r == d + [(k, v)]
  {
    match IndexOf(d, k)
    case Some(i) =>
      var r := d[i := (k, v)];
      assert Keys(r) == Keys(d);
      r
    case None => d + [(k, v)]
  }

  lemma PutGet<V>(d: Dict<V>, k: string, v: V, k': string)
    ensures Get(Put(d, k, v), k') == if k' == k then Some(v) else Get(d, k')
  {
    var r := Put(d, k, v);
    match IndexOf(d, k)
    case Some(i) =>
      assert r == d[i := (k, v)];
      if k' == k {
        GetAt(r, k', i);
      } else if Has(d, k') {
        var j := IndexOf(d, k').value;
        GetAt(d, k', j);
        assert FirstAt(r, k', j);
        GetAt(r, k', j);
      } else {
        assert !Has(r, k');
      }
    case None =>
      assert r == d + [(k, v)];
      if k' == k {
        GetAt(r, k', |d|);
      } else if Has(d, k') {
        var j := IndexOf(d, k').value;
        GetAt(d, k', j);
        assert FirstAt(r, k', j);
        GetAt(r, k', j);
      } else {
        assert !Has(r, k');
      }
  }

  lemma PutWf<V>(d: Dict<V>, k: string, v: V)
    requires Wf(d)
    ensures Wf(Put(d, k, v))
  {
    var r := Put(d, k, v);
    if Has(d, k) {
      assert Keys(r) == Keys(d);
      forall i, j | 0 <= i < j < |r| ensures r[i].0 != r[j].0 {
        assert Keys(r)[i] == Keys(d)[i] && Keys(r)[j] == Keys(d)[j];
      }
    }
  }

  lemma HasKeys<V, W>(d: Dict<V>, d': Dict<W>, k: string)
    requires Keys(d) == Keys(d')
    ensures Has(d, k) <==> Has(d', k)
  {
    if Has(d, k) {
      var i :| 0 <= i < |d| && d[i].0 == k;
      assert Keys(d)[i] == k;
    }
    if Has(d', k) {
      var i :| 0 <= i < |d'| && d'[i].0 == k;
      assert Keys(d')[i] == k;
    }
  }

  /** Object spread `{...a, ...b}`: `b`'s entries assigned over `a`, in `b`'s key order. */
  function Spread<V>(a: Dict<V>, b: Dict<V>): (r: Dict<V>)
    ensures |r| >= |a| && forall i :: 0 <= i < |a| ==> r[i].0 == a[i].0
    decreases |b|
  {
    if |b| == 0 then a
    else
      var a' := Put(a, b[0].0, b[0].1);
      assert forall i :: 0 <= i < |a| ==> a'[i].0 == a[i].0 by {
        if Has(a, b[0].0) {
          assert forall i :: 0 <= i < |a| ==> Keys(a')[i] == Keys(a)[i];
        }
      }
      Spread(a', b[1..])
  }

  /** A key is in a non-empty dict iff it is the head's key or a key of the tail. */
  lemma HasCons<V>(b: Dict<V>, k: string)
    requires |b| > 0
    ensures Has(b, k) <==> b[0].0 == k || Has(b[1..], k)
  {
    if Has(b, k) && b[0].0 != k {
      var i :| 0 <= i < |b| && b[i].0 == k;
      assert b[1..][i - 1].0 == k;
    }
    if Has(b[1..], k) {
      var i :| 0 <= i < |b[1..]| && b[1..][i].0 == k;
      assert b[i + 1].0 == k;
    }
  }

  lemma GetTail<V>(b: Dict<V>, k: string)
    requires Wf(b) && |b| > 0 && Has(b[1..], k)
    ensures Get(b[1..], k) == Get(b, k)
  {
    var i :| 0 <= i < |b[1..]| && b[1..][i].0 == k;
    GetWf(b[1..], k, i);
    GetWf(b, k, i + 1);
  }

  /** In `{...a, ...b}` every key of `b` takes `b`'s value and every other key keeps `a`'s. */
  lemma {:induction false} SpreadGet<V>(a: Dict<V>, b: Dict<V>, k: string)
    requires Wf(b)
    ensures Get(Spread(a, b), k) == (if Has(b, k) then Get(b, k) else Get(a, k))
    decreases |b|
  {
    if |b| > 0 {
      var a' := Put(a, b[0].0, b[0].1);
      assert Spread(a, b) == Spread(a', b[1..]);
      assert Wf(b[1..]);
      SpreadGet(a', b[1..], k);
      PutGet(a, b[0].0, b[0].1, k);
      HasCons(b, k);
      if Has(b[1..], k) {
        GetTail(b, k);
      } else if k == b[0].0 {
        GetWf(b, k, 0);
      }
    }
  }

  lemma {:induction false} SpreadWf<V>(a: Dict<V>, b: Dict<V>)
    requires Wf(a)
    ensures Wf(Spread(a, b))
    decreases |b|
  {
    if |b| > 0 {
      PutWf(a, b[0].0, b[0].1);
      SpreadWf(Put(a, b[0].0, b[0].1), b[1..]);
    }
  }

  lemma PutSame<V>(d: Dict<V>, k: string, v: V)
    requires Get(d, k) == Some(v)
    ensures Put(d, k, v) == d
  {
    var i := IndexOf(d, k).value;
    assert d[i] == (k, v);
  }

  /** Spreading entries that `d` already holds leaves `d` exactly as it was. */
  lemma {:induction false} SpreadHeld<V>(d: Dict<V>, b: Dict<V>)
    requires forall i :: 0 <= i < |b| ==> Get(d, b[i].0) == Some(b[i].1)
    ensures Spread(d, b) == d
    decreases |b|
  {
    if |b| > 0 {
      PutSame(d, b[0].0, b[0].1);
      assert forall i :: 0 <= i < |b[1..]| ==> b[1..][i] == b[i + 1];
      SpreadHeld(d, b[1..]);
    }
  }

  /** `{...d, ...d}` is `d`. */
  lemma SpreadSelf<V>(d: Dict<V>)
    requires Wf(d)
    ensures Spread(d, d) == d
  {
    forall i | 0 <= i < |d| ensures Get(d, d[i].0) == Some(d[i].1) {
      GetWf(d, d[i].0, i);
    }
    SpreadHeld(d, d);
  }
}
