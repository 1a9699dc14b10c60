/**
 * Snapshots (one run's raw probe outputs, keyed by probe name) and the
 * `merge_keys_to_list` helper of the `utils` module.
 *
 * A snapshot is a Python dict: its keys keep their insertion order, which is
 * the only place where order matters (it fixes the order anomalies come out
 * in). The model keeps that order as a sequence beside the map.
 */
module Utils {

  /** A Python value that may be `None`. */
  datatype Option<T> = None | Some(value: T)

  /** An insertion-ordered dict from probe name to raw captured text. */
  datatype Snapshot = Snapshot(keys: seq<string>, values: map<string, string>)
  {
    /** Every Python dict has this shape: keys listed once each, exactly the map's keys. */
    ghost predicate Valid()
    {
      Distinct(keys) && (forall k :: k in values <==> k in keys)
    }

    /** Python truthiness of a dict: false exactly for the empty dict. */
    predicate IsEmpty()
    {
      |values| == 0
    }
  }

  /** The empty dict `{}`. */
  const EmptySnapshot := Snapshot([], map[])

  predicate Distinct(s: seq<string>)
  {
    forall i, j :: 0 <= i < j < |s| ==> s[i] != s[j]
  }

  /** A valid snapshot is empty exactly when it has no keys. */
  lemma EmptyIsEmptySnapshot(s: Snapshot)
    requires s.Valid()
    ensures s.IsEmpty() <==> s == EmptySnapshot
  {
    if |s.keys| > 0 {
      assert s.keys[0] in s.values;
    } else {
      assert s.values == map[];
    }
  }

  /** The keys of `ks`, in order, that are not keys of `seen`. */
  function OnlyIn(ks: seq<string>, seen: map<string, string>): (r: seq<string>)
    ensures forall k :: k in r <==> k in ks && k !in seen
    ensures |r| <= |ks|
  {
    if ks == [] then []
    else if ks[0] in seen then OnlyIn(ks[1..], seen)
    else [ks[0]] + OnlyIn(ks[1..], seen)
  }

  /**
   * `merge_keys_to_list(oldSnap, newSnap)`: every key of `oldSnap` in its order, then the
   * keys present only in `newSnap`, in their order.
   */
  function MergeKeysToList(oldSnap: Snapshot, newSnap: Snapshot): (tasks: seq<string>)
    ensures forall k :: k in tasks <==> k in oldSnap.keys || (k in newSnap.keys && k !in oldSnap.values)
  {
    oldSnap.keys + OnlyIn(newSnap.keys, oldSnap.values)
  }

  /** Filtering out seen keys commutes with concatenation, so the kept keys stay in their order. */
  lemma {:induction false} OnlyInAppend(a: seq<string>, b: seq<string>, seen: map<string, string>)
    ensures OnlyIn(a + b, seen) == OnlyIn(a, seen) + OnlyIn(b, seen)
  {
    if a == [] {
      assert a + b == b;
    } else {
      assert (a + b)[0] == a[0];
      assert (a + b)[1..] == a[1..] + b;
      OnlyInAppend(a[1..], b, seen);
    }
  }

  /** Two kept keys come out in the order they had in `ks`. */
  lemma {:induction false} OnlyInKeepsOrder(ks: seq<string>, seen: map<string, string>, i: int, j: int)
    requires 0 <= i < j < |ks| && ks[i] !in seen && ks[j] !in seen
    ensures exists p, q :: 0 <= p < q < |OnlyIn(ks, seen)| && OnlyIn(ks, seen)[p] == ks[i] && OnlyIn(ks, seen)[q] == ks[j]
  {
    var r1 := OnlyIn(ks[..j], seen);
    var r2 := OnlyIn(ks[j..], seen);
    assert OnlyIn(ks, seen) == r1 + r2 by {
      assert ks == ks[..j] + ks[j..];
      OnlyInAppend(ks[..j], ks[j..], seen);
    }
    assert ks[i] in r1 by {
      assert ks[..j][i] == ks[i];
    }
    var p :| 0 <= p < |r1| && r1[p] == ks[i];
    assert r2[0] == ks[j] by {
      assert ks[j..][0] == ks[j];
    }
    assert (r1 + r2)[p] == ks[i] && (r1 + r2)[|r1|] == ks[j];
  }

  lemma {:induction false} OnlyInDistinct(ks: seq<string>, seen: map<string, string>)
    requires Distinct(ks)
    ensures Distinct(OnlyIn(ks, seen))
  {
    if ks != [] {
      assert Distinct(ks[1..]) by {
        forall i, j | 0 <= i < j < |ks[1..]| ensures ks[1..][i] != ks[1..][j] {
          assert ks[1..][i] == ks[i + 1] && ks[1..][j] == ks[j + 1];
        }
      }
      OnlyInDistinct(ks[1..], seen);
      if ks[0] !in seen {
        var t := OnlyIn(ks[1..], seen);
        forall x | x in ks[1..] ensures x != ks[0] {
          var j :| 0 <= j < |ks[1..]| && ks[1..][j] == x;
          assert ks[j + 1] == x;
        }
        assert ks[0] !in t;
        var r := [ks[0]] + t;
        forall i, j | 0 <= i < j < |r| ensures r[i] != r[j] {
          if i > 0 {
            assert r[i] == t[i - 1] && r[j] == t[j - 1];
          } else {
            assert r[j] == t[j - 1] && t[j - 1] in t;
          }
        }
      }
    }
  }

  /**
   * The merged task list names every key of either snapshot, names nothing
   * else, lists no key twice, starts with the keys of `oldSnap` in their order,
   * and continues with the keys only in `newSnap` in their order there.
   */
  lemma MergeKeysToListSpec(oldSnap: Snapshot, newSnap: Snapshot)
    requires oldSnap.Valid() && newSnap.Valid()
    ensures var tasks := MergeKeysToList(oldSnap, newSnap);
      && (forall k :: k in tasks <==> k in oldSnap.values || k in newSnap.values)
      && Distinct(tasks)
      && tasks[..|oldSnap.keys|] == oldSnap.keys
      && tasks[|oldSnap.keys|..] == OnlyIn(newSnap.keys, oldSnap.values)
  {
    var tasks := MergeKeysToList(oldSnap, newSnap);
    var rest := OnlyIn(newSnap.keys, oldSnap.values);
    OnlyInDistinct(newSnap.keys, oldSnap.values);
    forall i, j | 0 <= i < j < |tasks| ensures tasks[i] != tasks[j] {
      if j < |oldSnap.keys| {
        assert tasks[i] == oldSnap.keys[i] && tasks[j] == oldSnap.keys[j];
      } else if i >= |oldSnap.keys| {
        assert tasks[i] == rest[i - |oldSnap.keys|] && tasks[j] == rest[j - |oldSnap.keys|];
      } else {
        assert tasks[j] == rest[j - |oldSnap.keys|] && tasks[j] in rest;
        assert tasks[i] == oldSnap.keys[i] && tasks[i] in oldSnap.values;
      }
    }
    assert tasks[..|oldSnap.keys|] == oldSnap.keys;
    assert tasks[|oldSnap.keys|..] == rest;
  }

  /** The merge of keys `[a, b]` with keys `[b, c]` is `[a, b, c]`. */
  lemma MergeKeysToListExample()
    ensures MergeKeysToList(Snapshot(["a", "b"], map["a" := "", "b" := ""]),
                            Snapshot(["b", "c"], map["b" := "", "c" := ""])) == ["a", "b", "c"]
  {
  }
}
