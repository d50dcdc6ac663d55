/** What journal records mean: replaying updates over a map, record by record or key by key. */
module RecordReplay {
  import opened Options
  import opened JournalModel

  datatype Update<K, V> = Update(key: K, val: V)

  // ----- the meaning of records

  function Val<K, V>(m: map<K, V>, k: K): Option<V> {
    if k in m then Some(m[k]) else None
  }

  function ApplyUpdates<K, V>(m: map<K, V>, us: seq<Update<K, V>>): map<K, V> {
    if |us| == 0 then m
    else ApplyUpdates(m, us[..|us| - 1])[us[|us| - 1].key := us[|us| - 1].val]
  }

  /** Replaying whole records, oldest first. */
  function ApplyRecords<K, V>(m: map<K, V>, log: seq<Record<Update<K, V>>>): map<K, V> {
    if |log| == 0 then m
    else ApplyUpdates(ApplyRecords(m, log[..|log| - 1]), log[|log| - 1].updates)
  }

  ghost predicate Touches<K, V>(us: seq<Update<K, V>>, k: K) {
    exists i :: 0 <= i < |us| && us[i].key == k
  }

  /** Some record with sequence number at least `from` updates `k`. */
  ghost predicate TouchedFrom<K, V>(log: seq<Record<Update<K, V>>>, from: nat, k: K) {
    exists i :: 0 <= i < |log| && from <= i + 1 && Touches(log[i].updates, k)
  }

  lemma {:induction false} ApplyUpdatesVal<K, V>(m: map<K, V>, m': map<K, V>, us: seq<Update<K, V>>, k: K)
    ensures Touches(us, k) ==> Val(ApplyUpdates(m, us), k) == Val(ApplyUpdates(m', us), k)
    ensures !Touches(us, k) ==> Val(ApplyUpdates(m, us), k) == Val(m, k)
  {
    if |us| > 0 {
      var init := us[..|us| - 1];
      ApplyUpdatesVal(m, m', init, k);
      if us[|us| - 1].key != k {
        assert Touches(us, k) <==> Touches(init, k) by {
          if Touches(us, k) {
            var i :| 0 <= i < |us| && us[i].key == k;
            assert init[i].key == k;
          }
          if Touches(init, k) {
            var i :| 0 <= i < |init| && init[i].key == k;
            assert us[i].key == k;
          }
        }
      }
    }
  }

  /** A key's value after replay depends on what was there before only if no record touches it. */
  lemma {:induction false} ApplyRecordsVal<K, V>(m: map<K, V>, m': map<K, V>, log: seq<Record<Update<K, V>>>, k: K)
    ensures TouchedFrom(log, 0, k) ==> Val(ApplyRecords(m, log), k) == Val(ApplyRecords(m', log), k)
    ensures !TouchedFrom(log, 0, k) ==> Val(ApplyRecords(m, log), k) == Val(m, k)
  {
    if |log| > 0 {
      var init := log[..|log| - 1];
      var last := log[|log| - 1].updates;
      ApplyRecordsVal(m, m', init, k);
      ApplyUpdatesVal(ApplyRecords(m, init), ApplyRecords(m', init), last, k);
      ApplyUpdatesVal(ApplyRecords(m', init), ApplyRecords(m, init), last, k);
      if Touches(last, k) {
        assert TouchedFrom(log, 0, k);
      } else {
        assert TouchedFrom(log, 0, k) <==> TouchedFrom(init, 0, k) by {
          if TouchedFrom(log, 0, k) {
            var i :| 0 <= i < |log| && Touches(log[i].updates, k);
            assert init[i] == log[i];
          }
          if TouchedFrom(init, 0, k) {
            var i :| 0 <= i < |init| && Touches(init[i].updates, k);
            assert log[i] == init[i];
          }
        }
      }
    }
  }

  lemma {:induction false} ApplySplit<K, V>(m: map<K, V>, log: seq<Record<Update<K, V>>>, n: nat)
    requires n <= |log|
    ensures ApplyRecords(m, log) == ApplyRecords(ApplyRecords(m, log[..n]), log[n..])
    decreases |log| - n
  {
    if n == |log| {
      assert log[..n] == log;
    } else {
      var init := log[..|log| - 1];
      ApplySplit(m, init, n);
      assert init[..n] == log[..n];
      assert log[n..][..|log| - n - 1] == init[n..];
    }
  }

  lemma SameValues<K(!new), V>(m: map<K, V>, m': map<K, V>)
    requires forall k: K :: Val(m, k) == Val(m', k)
    ensures m == m'
  {
    forall k: K
      ensures k in m <==> k in m'
      ensures k in m ==> m[k] == m'[k]
    {
      assert Val(m, k) == Val(m', k);
    }
  }

  // ----- replay, key by key

  /** Updates with the sequence number of the record that carries them. */
  function Tagged<K, V>(us: seq<Update<K, V>>, seqno: nat): (ps: seq<(nat, Update<K, V>)>)
    ensures |ps| == |us| && forall i | 0 <= i < |us| :: ps[i] == (seqno, us[i])
  {
    seq(|us|, i requires 0 <= i < |us| => (seqno, us[i]))
  }

  /** All updates of a window in replay order. */
  function Flatten<K, V>(window: seq<Record<Update<K, V>>>): seq<(nat, Update<K, V>)> {
    if |window| == 0 then []
    else
      var last := window[|window| - 1];
      Flatten(window[..|window| - 1]) + Tagged(last.updates, last.seqno)
  }

  function ApplyPending<K, V>(m: map<K, V>, ps: seq<(nat, Update<K, V>)>): map<K, V>
    decreases |ps|
  {
    if |ps| == 0 then m else ApplyPending(m[ps[0].1.key := ps[0].1.val], ps[1..])
  }

  ghost predicate PendingTouches<K, V>(ps: seq<(nat, Update<K, V>)>, k: K) {
    exists i :: 0 <= i < |ps| && ps[i].1.key == k
  }

  lemma {:induction false} PendingVal<K, V>(m: map<K, V>, m': map<K, V>, ps: seq<(nat, Update<K, V>)>, k: K)
    ensures PendingTouches(ps, k) ==> Val(ApplyPending(m, ps), k) == Val(ApplyPending(m', ps), k)
    ensures Val(m, k) == Val(m', k) ==> Val(ApplyPending(m, ps), k) == Val(ApplyPending(m', ps), k)
    ensures !PendingTouches(ps, k) ==> Val(ApplyPending(m, ps), k) == Val(m, k)
    decreases |ps|
  {
    if |ps| > 0 {
      var rest := ps[1..];
      PendingVal(m[ps[0].1.key := ps[0].1.val], m'[ps[0].1.key := ps[0].1.val], rest, k);
      assert PendingTouches(ps, k) <==> ps[0].1.key == k || PendingTouches(rest, k) by {
        if PendingTouches(ps, k) && ps[0].1.key != k {
          var i :| 0 <= i < |ps| && ps[i].1.key == k;
          assert rest[i - 1].1.key == k;
        }
        if PendingTouches(rest, k) {
          var i :| 0 <= i < |rest| && rest[i].1.key == k;
          assert ps[i + 1].1.key == k;
        }
      }
    }
  }

  lemma {:induction false} PendingConcat<K, V>(m: map<K, V>, a: seq<(nat, Update<K, V>)>, b: seq<(nat, Update<K, V>)>)
    ensures ApplyPending(m, a + b) == ApplyPending(ApplyPending(m, a), b)
    decreases |a|
  {
    if |a| == 0 {
      assert a + b == b;
    } else {
      assert (a + b)[1..] == a[1..] + b;
      PendingConcat(m[a[0].1.key := a[0].1.val], a[1..], b);
    }
  }

  lemma {:induction false} PendingOfUpdates<K, V>(m: map<K, V>, us: seq<Update<K, V>>, seqno: nat)
    ensures ApplyPending(m, Tagged(us, seqno)) == ApplyUpdates(m, us)
  {
    if |us| > 0 {
      var init := us[..|us| - 1];
      var last := [(seqno, us[|us| - 1])];
      PendingOfUpdates(m, init, seqno);
      assert Tagged(us, seqno) == Tagged(init, seqno) + last;
      PendingConcat(m, Tagged(init, seqno), last);
      var m' := ApplyPending(m, Tagged(init, seqno));
      assert ApplyPending(m', last) == ApplyPending(m'[us[|us| - 1].key := us[|us| - 1].val], last[1..]);
    }
  }

  /** Replaying key by key is replaying record by record. */
  lemma {:induction false} FlattenApplies<K, V>(m: map<K, V>, window: seq<Record<Update<K, V>>>)
    ensures ApplyPending(m, Flatten(window)) == ApplyRecords(m, window)
  {
    if |window| > 0 {
      var init := window[..|window| - 1];
      var last := window[|window| - 1];
      FlattenApplies(m, init);
      PendingConcat(m, Flatten(init), Tagged(last.updates, last.seqno));
      PendingOfUpdates(ApplyRecords(m, init), last.updates, last.seqno);
    }
  }

  /** Each flattened update is in the record whose sequence number it carries. */
  lemma {:induction false} FlattenMember<K, V>(window: seq<Record<Update<K, V>>>, i: nat) returns (n: nat)
    requires i < |Flatten(window)|
    ensures n < |window| && window[n].seqno == Flatten(window)[i].0
    ensures Touches(window[n].updates, Flatten(window)[i].1.key)
  {
    var init := window[..|window| - 1];
    var last := window[|window| - 1];
    if i < |Flatten(init)| {
      n := FlattenMember(init, i);
    } else {
      n := |window| - 1;
      assert Flatten(window)[i].1 == last.updates[i - |Flatten(init)|];
    }
  }

  lemma {:induction false} FlattenTouches<K, V>(window: seq<Record<Update<K, V>>>, k: K)
    ensures PendingTouches(Flatten(window), k) <==> TouchedFrom(window, 0, k)
  {
    if |window| > 0 {
      var init := window[..|window| - 1];
      var last := window[|window| - 1];
      FlattenTouches(init, k);
      var f, g := Flatten(init), Flatten(window);
      if PendingTouches(g, k) {
        var i :| 0 <= i < |g| && g[i].1.key == k;
        if i < |f| {
          assert f[i] == g[i];
          assert PendingTouches(f, k);
          var n :| 0 <= n < |init| && Touches(init[n].updates, k);
          assert window[n] == init[n];
        } else {
          assert last.updates[i - |f|].key == k;
          assert Touches(window[|window| - 1].updates, k);
        }
      }
      if TouchedFrom(window, 0, k) {
        var n :| 0 <= n < |window| && Touches(window[n].updates, k);
        if n < |init| {
          assert init[n] == window[n];
          assert TouchedFrom(init, 0, k);
          var i :| 0 <= i < |f| && f[i].1.key == k;
          assert g[i] == f[i];
        } else {
          var i :| 0 <= i < |last.updates| && last.updates[i].key == k;
          assert g[|f| + i].1.key == k;
        }
      }
    }
  }
}
