/**
 * The plugin container: a map from plugin name to plugin ordered by name, as
 * an ordered tree map keeps it. It is held as a list of entries whose keys
 * ascend strictly in the order `Below` that the string class uses
 * (character by character, a proper prefix first), so that walking the
 * container from begin to end visits the names in that order.
 */
module OrderedMap {
  import opened Wrappers

  /** a < b for strings: lexicographic on character codes, a proper prefix first. */
  predicate Below(a: string, b: string)
  {
    if |a| == 0 then |b| > 0
    else |b| > 0 && (a[0] < b[0] || (a[0] == b[0] && Below(a[1..], b[1..])))
  }

  lemma {:induction false} BelowIrreflexive(a: string)
    ensures !Below(a, a)
  {
    if |a| > 0 {
      BelowIrreflexive(a[1..]);
    }
  }

  lemma {:induction false} BelowTransitive(a: string, b: string, c: string)
    requires Below(a, b) && Below(b, c)
    ensures Below(a, c)
  {
    if |a| > 0 && a[0] == b[0] && b[0] == c[0] {
      BelowTransitive(a[1..], b[1..], c[1..]);
    }
  }

  lemma {:induction false} BelowTotal(a: string, b: string)
    requires a != b
    ensures Below(a, b) || Below(b, a)
  {
    if |a| > 0 && |b| > 0 && a[0] == b[0] {
      assert a == [a[0]] + a[1..] && b == [b[0]] + b[1..];
      BelowTotal(a[1..], b[1..]);
    }
  }

  datatype Entry<V> = Entry(key: string, value: V)

  /** Keys strictly ascend, so in particular no key occurs twice. */
  predicate Ordered<V>(es: seq<Entry<V>>)
  {
    forall i, j :: 0 <= i < j < |es| ==> Below(es[i].key, es[j].key)
  }

  function Keys<V>(es: seq<Entry<V>>): set<string>
  {
    set i | 0 <= i < |es| :: es[i].key
  }

  lemma KeysCons<V>(es: seq<Entry<V>>)
    requires es != []
    ensures Keys(es) == {es[0].key} + Keys(es[1..])
  {
    forall k | k in Keys(es) ensures k == es[0].key || k in Keys(es[1..]) {
      var i :| 0 <= i < |es| && es[i].key == k;
      if i > 0 { assert es[1..][i - 1].key == k; }
    }
    forall k | k in Keys(es[1..]) ensures k in Keys(es) {
      var i :| 0 <= i < |es[1..]| && es[1..][i].key == k;
      assert es[i + 1].key == k;
    }
  }

  /** The map the entries stand for. */
  function AsMap<V>(es: seq<Entry<V>>): (m: map<string, V>)
    ensures m.Keys == Keys(es)
  {
    if es == [] then map[]
    else
      KeysCons(es);
      AsMap(es[1..])[es[0].key := es[0].value]
  }

  /** The position of `key`, as the container's find(key) locates it. */
  function Find<V>(es: seq<Entry<V>>, key: string): (r: Option<nat>)
    ensures r.Some? ==> r.value < |es| && es[r.value].key == key
    ensures r.None? ==> key !in Keys(es)
  {
    if es == [] then None
    else if es[0].key == key then Some(0)
    else match Find(es[1..], key)
      case None => None
      case Some(k) => Some(k + 1)
  }

  lemma {:induction false} OrderedTail<V>(es: seq<Entry<V>>)
    requires Ordered(es) && es != []
    ensures Ordered(es[1..])
    ensures es[0].key !in Keys(es[1..])
  {
    forall k | k in Keys(es[1..]) ensures k != es[0].key {
      var j :| 0 <= j < |es[1..]| && es[1..][j].key == k;
      assert Below(es[0].key, es[j + 1].key);
      BelowIrreflexive(k);
    }
  }

  /** In ordered entries the value stored at a position is the map's value for its key. */
  lemma {:induction false} AsMapAt<V>(es: seq<Entry<V>>, i: nat)
    requires Ordered(es) && i < |es|
    ensures AsMap(es)[es[i].key] == es[i].value
  {
    if i > 0 {
      OrderedTail(es);
      AsMapAt(es[1..], i - 1);
      assert Below(es[0].key, es[i].key);
      BelowIrreflexive(es[0].key);
    }
  }

  /** Replacing the value at a position keeps the order. */
  lemma OrderedUpdateAt<V>(es: seq<Entry<V>>, i: nat, v: V)
    requires Ordered(es) && i < |es|
    ensures Ordered(es[i := Entry(es[i].key, v)])
  {
    var es' := es[i := Entry(es[i].key, v)];
    forall a, b | 0 <= a < b < |es'| ensures Below(es'[a].key, es'[b].key) {
      assert es'[a].key == es[a].key && es'[b].key == es[b].key;
    }
  }

  /** Replacing the value at a position updates the map at that key only. */
  lemma {:induction false} AsMapUpdateAt<V>(es: seq<Entry<V>>, i: nat, v: V)
    requires Ordered(es) && i < |es|
    ensures AsMap(es[i := Entry(es[i].key, v)]) == AsMap(es)[es[i].key := v]
  {
    var es' := es[i := Entry(es[i].key, v)];
    if i == 0 {
      assert es'[1..] == es[1..];
      UpdateTwice(AsMap(es[1..]), es[0].key, es[0].value, v);
    } else {
      OrderedTail(es);
      AsMapUpdateAt(es[1..], i - 1, v);
      assert es'[1..] == es[1..][i - 1 := Entry(es[i].key, v)];
      assert es'[0] == es[0];
      assert Below(es[0].key, es[i].key);
      BelowIrreflexive(es[0].key);
      UpdateCommutes(AsMap(es[1..]), es[i].key, v, es[0].key, es[0].value);
    }
  }

  /** Putting an entry before entries whose keys are all above its own keeps the order. */
  lemma {:induction false} ConsOrdered<V>(x: Entry<V>, rest: seq<Entry<V>>)
    requires Ordered(rest)
    requires forall k :: k in Keys(rest) ==> Below(x.key, k)
    ensures Ordered([x] + rest)
    ensures Keys([x] + rest) == {x.key} + Keys(rest)
    ensures AsMap([x] + rest) == AsMap(rest)[x.key := x.value]
  {
    var r := [x] + rest;
    assert r[1..] == rest;
    KeysCons(r);
    forall i, j | 0 <= i < j < |r| ensures Below(r[i].key, r[j].key) {
      if i == 0 {
        assert r[j].key == rest[j - 1].key;
        assert rest[j - 1].key in Keys(rest);
      } else {
        assert r[i] == rest[i - 1] && r[j] == rest[j - 1];
      }
    }
  }

  /**
   * container[key] = value: the entry for `key` is replaced in place or a
   * new entry is inserted at its place in the order.
   */
  function Put<V>(es: seq<Entry<V>>, key: string, value: V): (r: seq<Entry<V>>)
    requires Ordered(es)
    ensures Ordered(r)
    ensures Keys(r) == Keys(es) + {key}
    ensures AsMap(r) == AsMap(es)[key := value]
  {
    if es == [] then
      assert Keys([Entry(key, value)]) == {key} by { KeysCons([Entry(key, value)]); }
      [Entry(key, value)]
    else if es[0].key == key then
      OrderedTail(es);
      KeysCons(es);
      ConsAbove(es);
      ConsOrdered(Entry(key, value), es[1..]);
      UpdateTwice(AsMap(es[1..]), key, es[0].value, value);
      [Entry(key, value)] + es[1..]
    else if Below(key, es[0].key) then
      forall k | k in Keys(es) ensures Below(key, k) {
        KeysCons(es);
        ConsAbove(es);
        if k != es[0].key { BelowTransitive(key, es[0].key, k); }
      }
      ConsOrdered(Entry(key, value), es);
      [Entry(key, value)] + es
    else
      OrderedTail(es);
      KeysCons(es);
      ConsAbove(es);
      BelowTotal(key, es[0].key);
      var rest := Put(es[1..], key, value);
      ConsOrdered(es[0], rest);
      UpdateCommutes(AsMap(es[1..]), key, value, es[0].key, es[0].value);
      [es[0]] + rest
  }

  lemma UpdateTwice<V>(m: map<string, V>, k: string, v: V, w: V)
    ensures m[k := v][k := w] == m[k := w]
  {
  }

  lemma UpdateCommutes<V>(m: map<string, V>, k: string, v: V, k': string, v': V)
    requires k != k'
    ensures m[k := v][k' := v'] == m[k' := v'][k := v]
  {
  }

  /** In ordered entries every later key is above the first. */
  lemma ConsAbove<V>(es: seq<Entry<V>>)
    requires Ordered(es) && es != []
    ensures forall k :: k in Keys(es[1..]) ==> Below(es[0].key, k)
  {
    forall k | k in Keys(es[1..]) ensures Below(es[0].key, k) {
      var m :| 0 <= m < |es[1..]| && es[1..][m].key == k;
      assert es[m + 1].key == k;
    }
  }
}
