/** `DataFrame.unique(subset, keep, maintain_order=True)`: one row per key, the first or the last of its group. */
module Distinct {

  datatype Rule = First | Last

  function KeySet<R, K>(rows: seq<R>, key: R -> K): set<K> {
    set i | 0 <= i < |rows| :: key(rows[i])
  }

  /** A row survives when no earlier row has its key. */
  function KeepFirst<R, K(==)>(rows: seq<R>, key: R -> K): seq<R> {
    if |rows| == 0 then [] else
      var before, row := rows[..|rows| - 1], rows[|rows| - 1];
      if key(row) in KeySet(before, key) then KeepFirst(before, key) else KeepFirst(before, key) + [row]
  }

  /** A row survives when no later row has its key. */
  function KeepLast<R, K(==)>(rows: seq<R>, key: R -> K): seq<R> {
    if |rows| == 0 then [] else
      if key(rows[0]) in KeySet(rows[1..], key) then KeepLast(rows[1..], key)
      else [rows[0]] + KeepLast(rows[1..], key)
  }

  function Keep<R, K(==)>(rule: Rule, rows: seq<R>, key: R -> K): seq<R> {
    match rule
    case First => KeepFirst(rows, key)
    case Last => KeepLast(rows, key)
  }

  lemma KeySetSnoc<R, K>(rows: seq<R>, key: R -> K)
    requires |rows| > 0
    ensures KeySet(rows, key) == KeySet(rows[..|rows| - 1], key) + {key(rows[|rows| - 1])}
  {
    var n := |rows| - 1;
    forall k | k in KeySet(rows, key) ensures k in KeySet(rows[..n], key) + {key(rows[n])} {
      var i :| 0 <= i < |rows| && key(rows[i]) == k;
      if i < n { assert rows[..n][i] == rows[i]; }
    }
    forall k | k in KeySet(rows[..n], key) ensures k in KeySet(rows, key) {
      var i :| 0 <= i < n && key(rows[..n][i]) == k;
      assert rows[i] == rows[..n][i];
    }
  }

  lemma KeySetCons<R, K>(rows: seq<R>, key: R -> K)
    requires |rows| > 0
    ensures KeySet(rows, key) == {key(rows[0])} + KeySet(rows[1..], key)
  {
    forall k | k in KeySet(rows, key) ensures k in {key(rows[0])} + KeySet(rows[1..], key) {
      var i :| 0 <= i < |rows| && key(rows[i]) == k;
      if i > 0 { assert rows[1..][i - 1] == rows[i]; }
    }
    forall k | k in KeySet(rows[1..], key) ensures k in KeySet(rows, key) {
      var i :| 0 <= i < |rows| - 1 && key(rows[1..][i]) == k;
      assert rows[i + 1] == rows[1..][i];
    }
  }

  lemma KeySetOfSnoc<R, K>(rows: seq<R>, row: R, key: R -> K)
    ensures KeySet(rows + [row], key) == KeySet(rows, key) + {key(row)}
  {
    KeySetSnoc(rows + [row], key);
    assert (rows + [row])[..|rows|] == rows;
  }

  lemma KeySetOfCons<R, K>(row: R, rows: seq<R>, key: R -> K)
    ensures KeySet([row] + rows, key) == {key(row)} + KeySet(rows, key)
  {
    KeySetCons([row] + rows, key);
    assert ([row] + rows)[1..] == rows;
  }

  /** No key is lost, and each survivor stands for one key. */
  lemma {:induction false} KeepKeepsKeys<R, K>(rule: Rule, rows: seq<R>, key: R -> K)
    ensures KeySet(Keep(rule, rows, key), key) == KeySet(rows, key)
    ensures |Keep(rule, rows, key)| == |KeySet(rows, key)|
    decreases |rows|
  {
    if |rows| > 0 {
      match rule
      case First =>
        var before, row := rows[..|rows| - 1], rows[|rows| - 1];
        KeepKeepsKeys(rule, before, key);
        KeySetSnoc(rows, key);
        KeySetOfSnoc(KeepFirst(before, key), row, key);
        if key(row) in KeySet(before, key) {
          assert KeySet(rows, key) == KeySet(before, key);
        }
      case Last =>
        KeepKeepsKeys(rule, rows[1..], key);
        KeySetCons(rows, key);
        KeySetOfCons(rows[0], KeepLast(rows[1..], key), key);
        if key(rows[0]) in KeySet(rows[1..], key) {
          assert KeySet(rows, key) == KeySet(rows[1..], key);
        }
    }
  }

  /** Increasing positions. */
  ghost predicate Increasing(idx: seq<nat>) {
    forall a, b :: 0 <= a < b < |idx| ==> idx[a] < idx[b]
  }

  lemma {:induction false} IncreasingIsShort(idx: seq<nat>, n: nat)
    requires Increasing(idx) && forall a :: 0 <= a < |idx| ==> idx[a] < n
    ensures |idx| <= n
  {
    if idx != [] { IncreasingIsShort(idx[..|idx| - 1], idx[|idx| - 1]); }
  }

  /** Row `i` is the one its group keeps. */
  ghost predicate Survives<R, K>(rule: Rule, rows: seq<R>, key: R -> K, i: nat)
    requires i < |rows|
  {
    match rule
    case First => forall j :: 0 <= j < i ==> key(rows[j]) != key(rows[i])
    case Last => forall j :: i < j < |rows| ==> key(rows[j]) != key(rows[i])
  }

  /** The survivors are, in their original order, exactly the rows that are first (or last) with their key. */
  lemma KeepIsTheSurvivors<R, K>(rule: Rule, rows: seq<R>, key: R -> K) returns (idx: seq<nat>)
    ensures Increasing(idx) && |idx| == |Keep(rule, rows, key)|
    ensures forall a :: 0 <= a < |idx| ==> idx[a] < |rows| && Keep(rule, rows, key)[a] == rows[idx[a]]
    ensures forall i :: 0 <= i < |rows| ==> (i in idx <==> Survives(rule, rows, key, i))
  {
    if rule == First {
      idx := FirstSurvivors(rows, key);
    } else {
      idx := LastSurvivors(rows, key);
    }
  }

  lemma InKeySet<R, K>(rows: seq<R>, key: R -> K, k: K)
    ensures k in KeySet(rows, key) <==> exists i :: 0 <= i < |rows| && key(rows[i]) == k
  {
  }

  /** `idx` lists, in order, the survivors of `rows`. */
  ghost predicate Lists<R, K>(idx: seq<nat>, rule: Rule, rows: seq<R>, key: R -> K) {
    && Increasing(idx) && (forall a :: 0 <= a < |idx| ==> idx[a] < |rows|)
    && (forall i :: 0 <= i < |rows| ==> (i in idx <==> Survives(rule, rows, key, i)))
  }

  /** `kept` are the rows at these places. */
  ghost predicate Picks<R>(idx: seq<nat>, rows: seq<R>, kept: seq<R>) {
    |idx| == |kept| && forall a :: 0 <= a < |idx| ==> idx[a] < |rows| && kept[a] == rows[idx[a]]
  }

  lemma {:induction false} FirstSurvivors<R, K>(rows: seq<R>, key: R -> K) returns (idx: seq<nat>)
    ensures Lists(idx, First, rows, key) && Picks(idx, rows, KeepFirst(rows, key))
    decreases |rows|
  {
    idx := [];
    if |rows| > 0 {
      var n := |rows| - 1;
      var before := rows[..n];
      var front := FirstSurvivors(before, key);
      idx := if key(rows[n]) in KeySet(before, key) then front else front + [n];
      FirstStep(rows, key, front, idx);
      assert before + [rows[n]] == rows;
      PicksOneMore(front, before, KeepFirst(before, key), rows[n]);
    }
  }

  lemma PicksOneMore<R>(front: seq<nat>, before: seq<R>, kept: seq<R>, row: R)
    requires Picks(front, before, kept)
    ensures Picks(front, before + [row], kept) && Picks(front + [|before|], before + [row], kept + [row])
  {
  }

  lemma FirstStep<R, K>(rows: seq<R>, key: R -> K, front: seq<nat>, idx: seq<nat>)
    requires |rows| > 0 && Lists(front, First, rows[..|rows| - 1], key)
    requires idx == if key(rows[|rows| - 1]) in KeySet(rows[..|rows| - 1], key) then front else front + [|rows| - 1]
    ensures Lists(idx, First, rows, key)
  {
    var n := |rows| - 1;
    var before := rows[..n];
    forall i | 0 <= i < |rows| ensures i in idx <==> Survives(First, rows, key, i) {
      if i < n {
        assert Survives(First, before, key, i) <==> Survives(First, rows, key, i) by {
          assert forall j :: 0 <= j <= i ==> before[j] == rows[j];
        }
      } else {
        InKeySet(before, key, key(rows[n]));
        assert forall j :: 0 <= j < n ==> before[j] == rows[j];
      }
    }
  }

  lemma {:induction false} LastSurvivors<R, K>(rows: seq<R>, key: R -> K) returns (idx: seq<nat>)
    ensures Lists(idx, Last, rows, key) && Picks(idx, rows, KeepLast(rows, key))
    decreases |rows|
  {
    idx := [];
    if |rows| > 0 {
      var after := rows[1..];
      var tail := LastSurvivors(after, key);
      var up := ShiftedSurvivors(rows, key, tail);
      idx := if key(rows[0]) in KeySet(after, key) then up else [0] + up;
      LastStep(rows, key, up, idx);
    }
  }

  lemma LastStep<R, K>(rows: seq<R>, key: R -> K, up: seq<nat>, idx: seq<nat>)
    requires |rows| > 0 && Increasing(up) && forall a :: 0 <= a < |up| ==> 1 <= up[a] < |rows|
    requires forall i :: 1 <= i < |rows| ==> (i in up <==> Survives(Last, rows, key, i))
    requires idx == if key(rows[0]) in KeySet(rows[1..], key) then up else [0] + up
    ensures Lists(idx, Last, rows, key)
  {
    var after := rows[1..];
    InKeySet(after, key, key(rows[0]));
    if key(rows[0]) in KeySet(after, key) {
      var j :| 0 <= j < |after| && key(after[j]) == key(rows[0]);
      assert rows[j + 1] == after[j];
    } else {
      forall j | 0 < j < |rows| ensures key(rows[j]) != key(rows[0]) { assert after[j - 1] == rows[j]; }
      assert forall i :: 1 <= i < |rows| ==> (i in idx <==> i in up);
    }
  }

  /** The survivors of the tail, at their places in the whole. */
  lemma ShiftedSurvivors<R, K>(rows: seq<R>, key: R -> K, idx': seq<nat>) returns (up: seq<nat>)
    requires |rows| > 0 && Lists(idx', Last, rows[1..], key)
    ensures |up| == |idx'| && Increasing(up) && forall a :: 0 <= a < |idx'| ==> up[a] == idx'[a] + 1 < |rows|
    ensures forall i :: 1 <= i < |rows| ==> (i in up <==> Survives(Last, rows, key, i))
  {
    up := seq(|idx'|, a requires 0 <= a < |idx'| => idx'[a] + 1);
    forall i | 1 <= i < |rows| ensures i in up <==> Survives(Last, rows, key, i) {
      SurvivesInTail(rows, key, i);
      if i - 1 in idx' { var a :| 0 <= a < |idx'| && idx'[a] == i - 1; assert up[a] == i; }
      if i in up { var a :| 0 <= a < |up| && up[a] == i; assert idx'[a] == i - 1; }
    }
  }

  lemma SurvivesInTail<R, K>(rows: seq<R>, key: R -> K, i: nat)
    requires 1 <= i < |rows|
    ensures Survives(Last, rows[1..], key, i - 1) <==> Survives(Last, rows, key, i)
  {
    var after := rows[1..];
    assert forall j :: 0 <= j < |after| ==> after[j] == rows[j + 1];
    if Survives(Last, after, key, i - 1) {
      forall j | i < j < |rows| ensures key(rows[j]) != key(rows[i]) { assert after[j - 1] == rows[j]; }
    }
  }

  /** `fine` tells apart every two rows that `coarse` tells apart. */
  ghost predicate Refines<R(!new), K, L>(fine: R -> K, coarse: R -> L) {
    forall r, r' :: fine(r) == fine(r') ==> coarse(r) == coarse(r')
  }

  lemma CoarseKeySets<R(!new), K, L>(a: seq<R>, b: seq<R>, fine: R -> K, coarse: R -> L)
    requires Refines(fine, coarse) && KeySet(a, fine) <= KeySet(b, fine)
    ensures KeySet(a, coarse) <= KeySet(b, coarse)
  {
    forall l | l in KeySet(a, coarse) ensures l in KeySet(b, coarse) {
      var i :| 0 <= i < |a| && coarse(a[i]) == l;
      assert fine(a[i]) in KeySet(b, fine);
      var j :| 0 <= j < |b| && fine(b[j]) == fine(a[i]);
      assert coarse(b[j]) == l;
    }
  }

  /** Deduping by a finer key first changes nothing: the coarser key alone decides who survives. */
  lemma {:induction false} KeepComposes<R(!new), K, L>(rule: Rule, rows: seq<R>, fine: R -> K, coarse: R -> L)
    requires Refines(fine, coarse)
    ensures Keep(rule, Keep(rule, rows, fine), coarse) == Keep(rule, rows, coarse)
    decreases |rows|
  {
    if |rows| > 0 {
      match rule
      case First =>
        var before, row := rows[..|rows| - 1], rows[|rows| - 1];
        KeepComposes(rule, before, fine, coarse);
        KeepKeepsKeys(rule, before, fine);
        var kept := KeepFirst(before, fine);
        CoarseKeySets(kept, before, fine, coarse);
        CoarseKeySets(before, kept, fine, coarse);
        if fine(row) in KeySet(before, fine) {
          CoarseKeySets([row], before, fine, coarse);
          assert [row][0] == row;
          assert coarse(row) in KeySet([row], coarse);
        } else {
          assert (kept + [row])[..|kept|] == kept;
        }
      case Last =>
        var row, after := rows[0], rows[1..];
        KeepComposes(rule, after, fine, coarse);
        KeepKeepsKeys(rule, after, fine);
        var kept := KeepLast(after, fine);
        CoarseKeySets(kept, after, fine, coarse);
        CoarseKeySets(after, kept, fine, coarse);
        if fine(row) in KeySet(after, fine) {
          CoarseKeySets([row], after, fine, coarse);
          assert [row][0] == row;
          assert coarse(row) in KeySet([row], coarse);
        } else {
          assert ([row] + kept)[1..] == kept;
        }
    }
  }

  ghost predicate CoarseSeparates<R, K, L>(rows: seq<R>, fine: R -> K, coarse: R -> L) {
    forall i, j :: 0 <= i < |rows| && 0 <= j < |rows| && coarse(rows[i]) == coarse(rows[j]) ==>
        fine(rows[i]) == fine(rows[j])
  }

  /** A coarser key has no more values than a finer one, and as many only if it separates the same rows. */
  lemma {:induction false} CoarserHasFewerKeys<R(!new), K, L>(rows: seq<R>, fine: R -> K, coarse: R -> L)
    requires Refines(fine, coarse)
    ensures |KeySet(rows, coarse)| <= |KeySet(rows, fine)|
    ensures |KeySet(rows, coarse)| == |KeySet(rows, fine)| <==> CoarseSeparates(rows, fine, coarse)
    decreases |rows|
  {
    if |rows| > 0 {
      var n := |rows| - 1;
      var before, row := rows[..n], rows[n];
      CoarserHasFewerKeys(before, fine, coarse);
      KeySetSnoc(rows, fine);
      KeySetSnoc(rows, coarse);
      InKeySet(before, fine, fine(row));
      InKeySet(before, coarse, coarse(row));
      SeparatesSnoc(rows, fine, coarse);
      OneMore(KeySet(before, fine), fine(row));
      OneMore(KeySet(before, coarse), coarse(row));
      if fine(row) in KeySet(before, fine) {
        var p :| 0 <= p < n && fine(before[p]) == fine(row);
        assert coarse(before[p]) == coarse(row);
      }
    }
  }

  lemma OneMore<K>(s: set<K>, x: K)
    ensures |s + {x}| == |s| + if x in s then 0 else 1
  {
    if x in s { assert s + {x} == s; }
  }

  lemma SeparatesSnoc<R(!new), K, L>(rows: seq<R>, fine: R -> K, coarse: R -> L)
    requires |rows| > 0 && Refines(fine, coarse)
    ensures var n := |rows| - 1;
            CoarseSeparates(rows, fine, coarse) <==>
              && CoarseSeparates(rows[..n], fine, coarse)
              && (coarse(rows[n]) in KeySet(rows[..n], coarse) ==> fine(rows[n]) in KeySet(rows[..n], fine))
  {
    var n := |rows| - 1;
    var before := rows[..n];
    assert forall i :: 0 <= i < n ==> before[i] == rows[i];
    InKeySet(before, fine, fine(rows[n]));
    InKeySet(before, coarse, coarse(rows[n]));
    if CoarseSeparates(before, fine, coarse) && fine(rows[n]) in KeySet(before, fine) {
      var p :| 0 <= p < n && fine(before[p]) == fine(rows[n]);
      assert coarse(before[p]) == coarse(rows[n]);
    }
  }

  /** Survival depends only on keys, so it commutes with any map that carries one key to the other. */
  lemma {:induction false} KeepCommutes<R, S, K>(rule: Rule, rows: seq<R>, key: R -> K, mapped: seq<S>, key': S -> K,
                                                 g: R -> S)
    requires |mapped| == |rows|
    requires forall i :: 0 <= i < |rows| ==> mapped[i] == g(rows[i]) && key'(mapped[i]) == key(rows[i])
    ensures |Keep(rule, mapped, key')| == |Keep(rule, rows, key)|
    ensures forall a :: 0 <= a < |Keep(rule, rows, key)| ==> Keep(rule, mapped, key')[a] == g(Keep(rule, rows, key)[a])
    decreases |rows|
  {
    ImagesKept(rule, rows, key, mapped, key', g);
  }

  ghost predicate Images<R, S>(mapped: seq<S>, rows: seq<R>, g: R -> S) {
    |mapped| == |rows| && forall i :: 0 <= i < |rows| ==> mapped[i] == g(rows[i])
  }

  lemma ImagesJoin<R, S>(mapped: seq<S>, rows: seq<R>, mapped': seq<S>, rows': seq<R>, g: R -> S)
    requires Images(mapped, rows, g) && Images(mapped', rows', g)
    ensures Images(mapped + mapped', rows + rows', g)
  {
  }

  lemma {:induction false} ImagesKept<R, S, K>(rule: Rule, rows: seq<R>, key: R -> K, mapped: seq<S>, key': S -> K,
                                               g: R -> S)
    requires Images(mapped, rows, g) && forall i :: 0 <= i < |rows| ==> key'(mapped[i]) == key(rows[i])
    ensures Images(Keep(rule, mapped, key'), Keep(rule, rows, key), g)
    decreases |rows|
  {
    if |rows| > 0 {
      var n := |rows| - 1;
      match rule
      case First =>
        ImagesKept(rule, rows[..n], key, mapped[..n], key', g);
        SameKeySets(rows[..n], key, mapped[..n], key');
        ImagesJoin(KeepFirst(mapped[..n], key'), KeepFirst(rows[..n], key), [mapped[n]], [rows[n]], g);
      case Last =>
        ImagesKept(rule, rows[1..], key, mapped[1..], key', g);
        SameKeySets(rows[1..], key, mapped[1..], key');
        ImagesJoin([mapped[0]], [rows[0]], KeepLast(mapped[1..], key'), KeepLast(rows[1..], key), g);
    }
  }

  lemma SameKeySets<R, S, K>(rows: seq<R>, key: R -> K, mapped: seq<S>, key': S -> K)
    requires |mapped| == |rows| && forall i :: 0 <= i < |rows| ==> key'(mapped[i]) == key(rows[i])
    ensures KeySet(mapped, key') == KeySet(rows, key)
  {
    forall k | k in KeySet(rows, key) ensures k in KeySet(mapped, key') {
      var i :| 0 <= i < |rows| && key(rows[i]) == k;
      assert key'(mapped[i]) == k;
    }
    forall k | k in KeySet(mapped, key') ensures k in KeySet(rows, key) {
      var i :| 0 <= i < |rows| && key'(mapped[i]) == k;
      assert key(rows[i]) == k;
    }
  }

  /** The polars primitive, with a set of keys already seen. */
  method Unique<R, K(==)>(rule: Rule, rows: seq<R>, key: R -> K) returns (kept: seq<R>)
    ensures kept == Keep(rule, rows, key)
  {
    kept := [];
    var seen: set<K> := {};
    if rule == First {
      for i := 0 to |rows|
        invariant kept == KeepFirst(rows[..i], key) && seen == KeySet(rows[..i], key)
      {
        assert rows[..i + 1][..i] == rows[..i];
        KeySetSnoc(rows[..i + 1], key);
        if key(rows[i]) !in seen {
          kept := kept + [rows[i]];
        }
        seen := seen + {key(rows[i])};
      }
      assert rows[..|rows|] == rows;
    } else {
      for i := |rows| downto 0
        invariant kept == KeepLast(rows[i..], key) && seen == KeySet(rows[i..], key)
      {
        assert rows[i..][1..] == rows[i + 1..];
        KeySetCons(rows[i..], key);
        if key(rows[i]) !in seen {
          kept := [rows[i]] + kept;
        }
        seen := seen + {key(rows[i])};
      }
    }
  }
}
