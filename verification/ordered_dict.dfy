/** Python's insertion-ordered `dict` with string keys, as the generators use
    it: assigning to a present key keeps the key's position and replaces its
    value; assigning to a new key appends it. */
module OrderedDict {

  datatype Entry<V> = Entry(key: string, value: V)

  predicate HasKey<V>(d: seq<Entry<V>>, k: string) {
    exists i :: 0 <= i < |d| && d[i].key == k
  }

  predicate DistinctKeys<V>(d: seq<Entry<V>>) {
    forall i, j :: 0 <= i < j < |d| ==> d[i].key != d[j].key
  }

  /** `d[k] = v`. */
  function Put<V(==)>(d: seq<Entry<V>>, k: string, v: V): (r: seq<Entry<V>>)
    ensures |r| == if HasKey(d, k) then |d| else |d| + 1
    ensures forall i :: 0 <= i < |d| ==> r[i].key == d[i].key
    ensures forall i :: 0 <= i < |d| && d[i].key != k ==> r[i] == d[i]
    ensures forall i :: 0 <= i < |r| && r[i].key == k ==> r[i].value == v
    ensures !HasKey(d, k) ==> r[|d|] == Entry(k, v)
    ensures HasKey(r, k)
    ensures DistinctKeys(d) ==> DistinctKeys(r)
  {
    if HasKey(d, k) then
      seq(|d|, i requires 0 <= i < |d| => if d[i].key == k then Entry(k, v) else d[i])
    else
      d + [Entry(k, v)]
  }

  /** A dict filled by assigning the entries one after the other. */
  function FromEntries<V(==)>(es: seq<Entry<V>>): (r: seq<Entry<V>>)
    ensures DistinctKeys(r)
    ensures forall i :: 0 <= i < |es| ==> HasKey(r, es[i].key)
    ensures forall j :: 0 <= j < |r| ==> HasKey(es, r[j].key)
    decreases |es|
  {
    if |es| == 0 then []
    else
      var d := FromEntries(es[..|es| - 1]);
      var last := es[|es| - 1];
      var r := Put(d, last.key, last.value);
      forall i | 0 <= i < |es| ensures HasKey(r, es[i].key) {
        if i < |es| - 1 {
          assert es[..|es| - 1][i] == es[i];
          var j :| 0 <= j < |d| && d[j].key == es[i].key;
          assert r[j].key == es[i].key;
        }
      }
      forall j | 0 <= j < |r| ensures HasKey(es, r[j].key) {
        if j < |d| {
          var i :| 0 <= i < |es| - 1 && es[..|es| - 1][i].key == d[j].key;
          assert es[i].key == r[j].key;
        } else {
          assert r[j].key == es[|es| - 1].key;
        }
      }
      r
  }

  /** Each key ends up with the value of its last entry. */
  lemma {:induction false} LastEntryWins<V>(es: seq<Entry<V>>, i: nat, j: nat)
    requires i < |es| && forall m :: i < m < |es| ==> es[m].key != es[i].key
    requires j < |FromEntries(es)| && FromEntries(es)[j].key == es[i].key
    ensures FromEntries(es)[j].value == es[i].value
    decreases |es|
  {
    var n := |es| - 1;
    var d := FromEntries(es[..n]);
    var r := FromEntries(es);
    assert r == Put(d, es[n].key, es[n].value);
    if i < n {
      assert es[..n][i] == es[i];
      var k := es[n].key;
      assert k != es[i].key;
      assert !HasKey(d, k) ==> r[|d|].key == k;
      assert j < |d|;
      assert r[j] == d[j];
      forall m | i < m < |es[..n]| ensures es[..n][m].key != es[..n][i].key {
        assert es[..n][m] == es[m];
      }
      LastEntryWins(es[..n], i, j);
    }
  }

  /** Entries with distinct keys are the dict itself, in the same order. */
  lemma {:induction false} DistinctEntriesKept<V>(es: seq<Entry<V>>)
    requires DistinctKeys(es)
    ensures FromEntries(es) == es
    decreases |es|
  {
    if |es| > 0 {
      var n := |es| - 1;
      var pre, last := es[..n], es[n];
      DistinctSplit(es, pre, last);
      DistinctEntriesKept(pre);
      assert FromEntries(es) == Put(pre, last.key, last.value);
      assert pre + [Entry(last.key, last.value)] == es;
    }
  }

  /** Distinct keys stay distinct in a prefix, and the last key is new to it. */
  lemma DistinctSplit<V>(es: seq<Entry<V>>, pre: seq<Entry<V>>, last: Entry<V>)
    requires DistinctKeys(es) && |es| > 0 && pre == es[..|es| - 1] && last == es[|es| - 1]
    ensures DistinctKeys(pre) && !HasKey(pre, last.key)
  {
    var n := |es| - 1;
    forall a, b | 0 <= a < b < n ensures pre[a].key != pre[b].key {
      assert pre[a] == es[a] && pre[b] == es[b];
    }
    forall a | 0 <= a < n ensures pre[a].key != last.key {
      assert pre[a] == es[a];
    }
  }
}
