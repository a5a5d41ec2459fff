/** The first-seen deduplication that every loop of the scraper performs with
    a Python `set`: record `i` carries a key (`None` when it is never
    admitted), and only the first record with a given key is admitted. */
module FirstSeen {
  import opened Wrappers

  /** Record `i` holds a key that no earlier record holds. */
  ghost predicate IsFirst<K>(keys: seq<Option<K>>, i: int)
  {
    0 <= i < |keys| && keys[i].Some? && forall j :: 0 <= j < i ==> keys[j] != keys[i]
  }

  /** The keys admitted so far: the contents of the `seen` set. */
  ghost function Seen<K>(keys: seq<Option<K>>): set<K>
  {
    set i | 0 <= i < |keys| && keys[i].Some? :: keys[i].value
  }

  /** In increasing order, the records that are first with their key and
      that `keep` retains (a kept record produces an output row). */
  ghost function FirstIndices<K>(keys: seq<Option<K>>, keep: seq<bool>): seq<nat>
    requires |keep| == |keys|
  {
    if keys == [] then []
    else
      var n := |keys| - 1;
      FirstIndices(keys[..n], keep[..n]) + (if IsFirst(keys, n) && keep[n] then [n] else [])
  }

  /** A `keep` that retains every record. */
  ghost function AllKept(n: nat): (keep: seq<bool>)
    ensures |keep| == n && forall i :: 0 <= i < n ==> keep[i]
  {
    seq(n, _ => true)
  }

  /** Appending one key adds it to `seen`, and nothing else. */
  lemma SeenSnoc<K>(keys: seq<Option<K>>, k: Option<K>)
    ensures Seen(keys + [k]) == Seen(keys) + (if k.Some? then {k.value} else {})
  {
    var ks := keys + [k];
    forall x | x in Seen(ks) ensures x in Seen(keys) || (k.Some? && x == k.value) {
      var i :| 0 <= i < |ks| && ks[i].Some? && ks[i].value == x;
      if i < |keys| { assert keys[i] == ks[i]; }
    }
    forall x | x in Seen(keys) ensures x in Seen(ks) {
      var i :| 0 <= i < |keys| && keys[i].Some? && keys[i].value == x;
      assert ks[i] == keys[i];
    }
    if k.Some? { assert ks[|keys|] == k; }
  }

  /** The last record is first with its key exactly when the key is not yet
      in `seen`: the test `page not in seen` decides first occurrence. */
  lemma IsFirstLast<K>(keys: seq<Option<K>>)
    requires keys != []
    ensures var n := |keys| - 1;
      IsFirst(keys, n) <==> keys[n].Some? && keys[n].value !in Seen(keys[..n])
  {
    var n := |keys| - 1;
    if keys[n].Some? && keys[n].value in Seen(keys[..n]) {
      var j :| 0 <= j < n && keys[..n][j].Some? && keys[..n][j].value == keys[n].value;
      assert keys[j] == keys[n];
    }
  }

  /** Whether an index is first with its key does not depend on the records after it. */
  lemma IsFirstPrefix<K>(keys: seq<Option<K>>, m: int, i: int)
    requires 0 <= i < m <= |keys|
    ensures IsFirst(keys[..m], i) <==> IsFirst(keys, i)
  {
    if IsFirst(keys, i) {
      forall j | 0 <= j < i ensures keys[..m][j] != keys[..m][i] { assert keys[j] != keys[i]; }
    }
    if IsFirst(keys[..m], i) {
      forall j | 0 <= j < i ensures keys[j] != keys[i] { assert keys[..m][j] != keys[..m][i]; }
    }
  }

  /** Every first index is a kept first occurrence, and they increase. */
  lemma {:induction false} FirstIndicesSound<K>(keys: seq<Option<K>>, keep: seq<bool>)
    requires |keep| == |keys|
    ensures var fi := FirstIndices(keys, keep);
      && (forall k :: 0 <= k < |fi| ==> fi[k] < |keys| && IsFirst(keys, fi[k]) && keep[fi[k]])
      && (forall a, b :: 0 <= a < b < |fi| ==> fi[a] < fi[b])
  {
    if keys != [] {
      var n := |keys| - 1;
      var pk, pp := keys[..n], keep[..n];
      FirstIndicesSound<K>(pk, pp);
      var pre := FirstIndices(pk, pp);
      assert forall k :: 0 <= k < |FirstIndices(pk, pp)| ==> FirstIndices(pk, pp)[k] < n && IsFirst(pk, FirstIndices(pk, pp)[k]) && pp[FirstIndices(pk, pp)[k]];
      assert forall a, b :: 0 <= a < b < |FirstIndices(pk, pp)| ==> FirstIndices(pk, pp)[a] < FirstIndices(pk, pp)[b];
      var fi := FirstIndices(keys, keep);
      assert fi == pre + (if IsFirst(keys, n) && keep[n] then [n] else []);
      forall k | 0 <= k < |fi| ensures fi[k] < |keys| && IsFirst(keys, fi[k]) && keep[fi[k]] {
        if k < |pre| {
          assert fi[k] == pre[k];
          assert pre[k] < n && IsFirst(pk, pre[k]) && pp[pre[k]];
          assert pp[pre[k]] == keep[pre[k]];
          IsFirstPrefix(keys, n, pre[k]);
        } else {
          assert fi[k] == n;
        }
      }
      forall a, b | 0 <= a < b < |fi| ensures fi[a] < fi[b] {
        assert fi[a] == pre[a] && pre[a] < n;
        if b < |pre| { assert fi[b] == pre[b] && pre[a] < pre[b]; } else { assert fi[b] == n; }
      }
    }
  }

  /** Every kept first occurrence is a first index. */
  lemma {:induction false} FirstIndicesComplete<K>(keys: seq<Option<K>>, keep: seq<bool>)
    requires |keep| == |keys|
    ensures forall i :: 0 <= i < |keys| && IsFirst(keys, i) && keep[i] ==> i in FirstIndices(keys, keep)
  {
    if keys != [] {
      var n := |keys| - 1;
      var pk, pp := keys[..n], keep[..n];
      FirstIndicesComplete<K>(pk, pp);
      var pre := FirstIndices(pk, pp);
      assert FirstIndices(keys, keep) == pre + (if IsFirst(keys, n) && keep[n] then [n] else []);
      forall i | 0 <= i < |keys| && IsFirst(keys, i) && keep[i] ensures i in FirstIndices(keys, keep) {
        if i < n {
          assert pp[i] == keep[i];
          IsFirstPrefix(keys, n, i);
          assert i in pre;
        }
      }
    }
  }

  /** The first indices are exactly the kept first occurrences, in
      increasing order. */
  lemma FirstIndicesCharacterized<K>(keys: seq<Option<K>>, keep: seq<bool>)
    requires |keep| == |keys|
    ensures var fi := FirstIndices(keys, keep);
      && (forall k :: 0 <= k < |fi| ==> fi[k] < |keys| && IsFirst(keys, fi[k]) && keep[fi[k]])
      && (forall i :: 0 <= i < |keys| && IsFirst(keys, i) && keep[i] ==> i in fi)
      && (forall a, b :: 0 <= a < b < |fi| ==> fi[a] < fi[b])
  {
    FirstIndicesSound(keys, keep);
    FirstIndicesComplete(keys, keep);
  }

  /** No key is admitted twice: the keys of the first indices are pairwise distinct. */
  lemma FirstKeysDistinct<K>(keys: seq<Option<K>>, keep: seq<bool>)
    requires |keep| == |keys|
    ensures var fi := FirstIndices(keys, keep);
      && (forall k :: 0 <= k < |fi| ==> fi[k] < |keys|)
      && (forall a, b :: 0 <= a < |fi| && 0 <= b < |fi| && a != b ==> keys[fi[a]] != keys[fi[b]])
  {
    FirstIndicesCharacterized(keys, keep);
    var fi := FirstIndices(keys, keep);
    forall a, b | 0 <= a < |fi| && 0 <= b < |fi| && a != b ensures keys[fi[a]] != keys[fi[b]] {
      if a < b { assert IsFirst(keys, fi[b]); } else { assert IsFirst(keys, fi[a]); }
    }
  }

  /** When every record is kept, there is one output per distinct key, so the
      output is never longer than the input. */
  lemma {:induction false} FirstIndicesCount<K>(keys: seq<Option<K>>, keep: seq<bool>)
    requires |keep| == |keys| && forall i :: 0 <= i < |keep| ==> keep[i]
    ensures |FirstIndices(keys, keep)| == |Seen(keys)| <= |keys|
  {
    if keys != [] {
      var n := |keys| - 1;
      FirstIndicesCount(keys[..n], keep[..n]);
      assert keys == keys[..n] + [keys[n]];
      SeenSnoc(keys[..n], keys[n]);
      IsFirstLast(keys);
      var before := Seen(keys[..n]);
      if IsFirst(keys, n) {
        assert Seen(keys) == before + {keys[n].value};
        assert keys[n].value !in before;
        assert |Seen(keys)| == |before| + 1;
      } else {
        assert Seen(keys) == before;
      }
    }
  }

  /** Every record holding a key is preceded (or matched) by the first
      record with that key. */
  lemma {:induction false} FirstWithKey<K>(keys: seq<Option<K>>, i: int) returns (f: nat)
    requires 0 <= i < |keys| && keys[i].Some?
    ensures f <= i && IsFirst(keys, f) && keys[f] == keys[i]
    decreases i
  {
    if IsFirst(keys, i) {
      f := i;
    } else {
      var j :| 0 <= j < i && keys[j] == keys[i];
      f := FirstWithKey(keys, j);
    }
  }
}
