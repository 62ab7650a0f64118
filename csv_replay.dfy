/** Properties of the `read_csv` fold: one row at a time, one pass over a list of rows, and the
    replay of the accumulated list after every row that `read_csv` performs. */
module CsvReplay {
  import opened Outcomes
  import opened CsvRead

  /** Rows that write the same innermost entry: two 3-field rows with the same key and sub-key,
      or two rows of four or more fields with the same key, sub-key and sub-sub-key. */
  predicate SameSpot(a: Row, b: Row)
  {
    || (|a| == 3 && |b| == 3 && a[0] == b[0] && a[1] == b[1])
    || (|a| >= 4 && |b| >= 4 && a[0] == b[0] && a[1] == b[1] && a[2] == b[2])
  }

  /** Rows whose order matters: two 2-field rows with one key (the first wins), or two rows that
      write the same innermost entry (the last wins). */
  predicate Conflict(a: Row, b: Row)
  {
    (|a| == 2 && |b| == 2 && a[0] == b[0]) || SameSpot(a, b)
  }

  /** A key (or a key and sub-key) that `a` uses is not used by `b` with a different row length. */
  predicate AgreeOneWay(a: Row, b: Row)
  {
    && (|a| == 2 && |b| >= 3 ==> a[0] != b[0])
    && (|a| == 3 && |b| >= 4 ==> a[0] != b[0] || a[1] != b[1])
  }

  predicate Agree(a: Row, b: Row)
  {
    AgreeOneWay(a, b) && AgreeOneWay(b, a)
  }

  /** No key or sub-key is used by rows of different lengths. */
  predicate Consistent(list: seq<Row>)
  {
    forall a, b :: a in list && b in list ==> Agree(a, b)
  }

  /** No row of `list` raises when it is folded into `res`. */
  predicate Fits(res: Dict, list: seq<Row>)
  {
    forall a :: a in list ==> !Clashes(res, a)
  }

  // ---------------------------------------------------------------------------------------------
  // The effect of a single row

  /** A row adds its key (when it has two or more fields) and leaves every other key as it was. */
  lemma ApplyFrame(res: Dict, row: Row)
    requires !Clashes(res, row)
    ensures |row| >= 2 ==> Apply(res, row).value.Keys == res.Keys + {row[0]}
    ensures |row| < 2 ==> Apply(res, row).value == res
    ensures forall k :: k in res && (|row| < 2 || k != row[0]) ==>
              k in Apply(res, row).value && Apply(res, row).value[k] == res[k]
  {
  }

  /** A 2-field row only fills a missing key: an existing entry is never replaced. */
  lemma ApplyFirstWins(res: Dict, row: Row)
    requires |row| == 2
    ensures Apply(res, row).Ok?
    ensures Apply(res, row).value[row[0]] == if row[0] in res then res[row[0]] else Str(row[1])
  {
  }

  /** A 3-field row `[k, s, v]` sets `res[k][s]` to `v` and keeps the other sub-keys of `k`. */
  lemma ApplySetsSubKey(res: Dict, row: Row)
    requires |row| == 3 && !Clashes(res, row)
    ensures var r := Apply(res, row).value;
      && r[row[0]].Map? && row[1] in r[row[0]].m && r[row[0]].m[row[1]] == Str(row[2])
      && r[row[0]].m.Keys == Entry(res, row[0]).m.Keys + {row[1]}
      && forall s :: s != row[1] && row[0] in res && s in res[row[0]].m ==>
           s in r[row[0]].m && r[row[0]].m[s] == res[row[0]].m[s]
  {
  }

  /** A row `[k, f1, f2, ...]` of four or more fields sets `res[k][f1][f2]` to its pairs and keeps
      the other sub-keys of `k` and the other sub-sub-keys of `f1`. */
  lemma ApplySetsSubSubKey(res: Dict, row: Row)
    requires |row| >= 4 && !Clashes(res, row)
    ensures var r := Apply(res, row).value;
      && r[row[0]].Map? && row[1] in r[row[0]].m && r[row[0]].m[row[1]].Map?
      && row[2] in r[row[0]].m[row[1]].m && r[row[0]].m[row[1]].m[row[2]] == Map(PairsValue(row[1..]))
      && r[row[0]].m.Keys == Entry(res, row[0]).m.Keys + {row[1]}
      && r[row[0]].m[row[1]].m.Keys == Entry(Entry(res, row[0]).m, row[1]).m.Keys + {row[2]}
      && (forall s :: s != row[1] && row[0] in res && s in res[row[0]].m ==>
            s in r[row[0]].m && r[row[0]].m[s] == res[row[0]].m[s])
      && (forall t :: t != row[2] && row[0] in res && row[1] in res[row[0]].m && t in res[row[0]].m[row[1]].m ==>
            t in r[row[0]].m[row[1]].m && r[row[0]].m[row[1]].m[t] == res[row[0]].m[row[1]].m[t])
  {
  }

  // ---------------------------------------------------------------------------------------------
  // Laws of a single row

  /** The entry under `k`, or the empty dictionary `read_csv` creates for a missing key. */
  function Entry(m: map<string, Value>, k: string): Value
  {
    if k in m then m[k] else Map(map[])
  }

  /** Folding the same row twice is folding it once. */
  lemma ApplyIdempotent(res: Dict, a: Row)
    requires !Clashes(res, a)
    ensures !Clashes(Apply(res, a).value, a)
    ensures Apply(Apply(res, a).value, a) == Apply(res, a)
  {
    if |a| == 3 {
      var top := Entry(res, a[0]);
      var m1 := top.m[a[1] := Str(a[2])];
      var r1 := res[a[0] := Map(m1)];
      assert Apply(res, a) == Ok(r1);
      assert Entry(r1, a[0]) == Map(m1);
      assert Apply(r1, a) == Ok(r1[a[0] := Map(m1[a[1] := Str(a[2])])]);
      UpdateSame(m1, a[1]);
      UpdateSame(r1, a[0]);
    } else if |a| >= 4 {
      var top := Entry(res, a[0]);
      var sub := Entry(top.m, a[1]);
      var leaf := Map(sub.m[a[2] := Map(PairsValue(a[1..]))]);
      var m1 := top.m[a[1] := leaf];
      assert Apply(res, a) == Ok(res[a[0] := Map(m1)]);
      var r1 := res[a[0] := Map(m1)];
      assert Entry(r1, a[0]) == Map(m1) && Entry(m1, a[1]) == leaf;
      assert Apply(r1, a) == Ok(r1[a[0] := Map(m1[a[1] := Map(leaf.m[a[2] := Map(PairsValue(a[1..]))])])]);
      UpdateTwice(sub.m, a[2], Map(PairsValue(a[1..])), Map(PairsValue(a[1..])));
      UpdateSame(m1, a[1]);
      UpdateSame(r1, a[0]);
    }
  }

  /** A 2-field row whose key is already present changes nothing. */
  lemma ApplyPresent(res: Dict, a: Row)
    requires |a| == 2 && a[0] in res
    ensures Apply(res, a) == Ok(res)
  {
  }

  /** What a row of three or more fields leaves under its sub-key, given what was there. */
  function SubWrite(sub: Value, a: Row): Value
    requires |a| >= 3 && (|a| >= 4 ==> sub.Map?)
  {
    if |a| == 3 then Str(a[2]) else Map(sub.m[a[2] := Map(PairsValue(a[1..]))])
  }

  /** A row of three or more fields that does not raise rewrites one sub-key of its key. */
  lemma ApplyDeep(res: Dict, a: Row)
    requires |a| >= 3 && !Clashes(res, a)
    ensures Entry(res, a[0]).Map?
    ensures |a| >= 4 ==> Entry(Entry(res, a[0]).m, a[1]).Map?
    ensures Apply(res, a) ==
      Ok(res[a[0] := Map(Entry(res, a[0]).m[a[1] := SubWrite(Entry(Entry(res, a[0]).m, a[1]), a)])])
  {
  }

  /** A later row writing the same innermost entry hides the earlier one. */
  lemma ApplyOverwrites(res: Dict, a: Row, b: Row)
    requires SameSpot(a, b) && !Clashes(res, a)
    ensures !Clashes(Apply(res, a).value, b)
    ensures Apply(Apply(res, a).value, b) == Apply(res, b)
  {
    ApplyDeep(res, a);
    var top := Entry(res, a[0]);
    var x := SubWrite(Entry(top.m, a[1]), a);
    var r1 := res[a[0] := Map(top.m[a[1] := x])];
    assert Entry(r1, a[0]) == Map(top.m[a[1] := x]);
    ApplyDeep(r1, b);
    ApplyDeep(res, b);
    assert Entry(top.m[a[1] := x], a[1]) == x;
    if |a| >= 4 {
      var sub := Entry(top.m, a[1]);
      UpdateTwice(sub.m, a[2], Map(PairsValue(a[1..])), Map(PairsValue(b[1..])));
    }
    assert SubWrite(x, b) == SubWrite(Entry(top.m, a[1]), b);
    UpdateTwice(top.m, a[1], x, SubWrite(x, b));
    UpdateTwice(res, a[0], Map(top.m[a[1] := x]), Map(top.m[a[1] := SubWrite(x, b)]));
  }

  /** Writing back the value a key already holds changes nothing. */
  lemma UpdateSame<K, V>(m: map<K, V>, k: K)
    requires k in m
    ensures m[k := m[k]] == m
  {
  }

  /** A second update of a key replaces the first. */
  lemma UpdateTwice<K, V>(m: map<K, V>, k: K, v: V, w: V)
    ensures m[k := v][k := w] == m[k := w]
  {
  }

  /** Folding `b` keeps `a` from raising when the two agree on row lengths. */
  lemma ApplyKeepsFit(res: Dict, a: Row, b: Row)
    requires Agree(a, b) && !Clashes(res, a) && !Clashes(res, b)
    ensures !Clashes(Apply(res, b).value, a)
  {
  }

  /** A row changes only its own key, and what it writes there depends only on what was there. */
  lemma ApplyLocal(res: Dict, res': Dict, a: Row)
    requires |a| >= 2 && (a[0] in res <==> a[0] in res') && (a[0] in res ==> res[a[0]] == res'[a[0]])
    requires !Clashes(res, a)
    ensures !Clashes(res', a)
    ensures Apply(res', a) == Ok(res'[a[0] := Apply(res, a).value[a[0]]])
  {
    if |a| >= 3 {
      ApplyDeep(res, a);
      ApplyDeep(res', a);
    } else {
      assert a[0] in res' ==> res'[a[0] := res'[a[0]]] == res';
    }
  }

  /** Two agreeing rows that do not conflict can be folded in either order. */
  lemma ApplyCommutes(res: Dict, a: Row, b: Row)
    requires Agree(a, b) && !Conflict(a, b) && !Clashes(res, a) && !Clashes(res, b)
    ensures !Clashes(Apply(res, a).value, b) && !Clashes(Apply(res, b).value, a)
    ensures Apply(Apply(res, a).value, b) == Apply(Apply(res, b).value, a)
  {
    ApplyKeepsFit(res, a, b);
    ApplyKeepsFit(res, b, a);
    if |a| < 2 || |b| < 2 {
    } else if a[0] != b[0] {
      CommutesOtherKey(res, a, b);
    } else if a[1] != b[1] {
      CommutesOtherSubKey(res, a, b);
    } else {
      CommutesOtherSubSubKey(res, a, b);
    }
  }

  /** Different keys: each row rewrites its own key. */
  lemma CommutesOtherKey(res: Dict, a: Row, b: Row)
    requires |a| >= 2 && |b| >= 2 && a[0] != b[0]
    requires !Clashes(res, a) && !Clashes(res, b)
    ensures !Clashes(Apply(res, a).value, b) && !Clashes(Apply(res, b).value, a)
    ensures Apply(Apply(res, a).value, b) == Apply(Apply(res, b).value, a)
  {
    var ra := Apply(res, a).value;
    var rb := Apply(res, b).value;
    ApplyLocal(res, res, a);
    ApplyLocal(res, res, b);
    var va, vb := ra[a[0]], rb[b[0]];
    ApplyLocal(res, ra, b);
    ApplyLocal(res, rb, a);
    UpdatesCommute(res, a[0], va, b[0], vb);
  }

  /** Updates of two different keys can be made in either order. */
  lemma UpdatesCommute<K, V>(m: map<K, V>, j: K, v: V, k: K, w: V)
    requires j != k
    ensures m[j := v][k := w] == m[k := w][j := v]
  {
  }

  /** Same key, different sub-keys: each row rewrites its own sub-key. */
  lemma CommutesOtherSubKey(res: Dict, a: Row, b: Row)
    requires |a| >= 3 && |b| >= 3 && a[0] == b[0] && a[1] != b[1]
    requires !Clashes(res, a) && !Clashes(res, b)
    ensures !Clashes(Apply(res, a).value, b) && !Clashes(Apply(res, b).value, a)
    ensures Apply(Apply(res, a).value, b) == Apply(Apply(res, b).value, a)
  {
    var k := a[0];
    var top := Entry(res, k);
    ApplyDeep(res, a);
    ApplyDeep(res, b);
    var xa := SubWrite(Entry(top.m, a[1]), a);
    var xb := SubWrite(Entry(top.m, b[1]), b);
    var ra := res[k := Map(top.m[a[1] := xa])];
    var rb := res[k := Map(top.m[b[1] := xb])];
    assert Entry(ra, k).m == top.m[a[1] := xa];
    assert Entry(rb, k).m == top.m[b[1] := xb];
    assert Entry(top.m[a[1] := xa], b[1]) == Entry(top.m, b[1]);
    assert Entry(top.m[b[1] := xb], a[1]) == Entry(top.m, a[1]);
    ApplyDeep(ra, b);
    ApplyDeep(rb, a);
    var both := top.m[a[1] := xa][b[1] := xb];
    UpdatesCommute(top.m, a[1], xa, b[1], xb);
    assert Apply(ra, b) == Ok(ra[k := Map(both)]);
    assert Apply(rb, a) == Ok(rb[k := Map(both)]);
    UpdateTwice(res, k, Map(top.m[a[1] := xa]), Map(both));
    UpdateTwice(res, k, Map(top.m[b[1] := xb]), Map(both));
  }

  /** The closed form of a row of four or more fields, given the entries it finds. */
  lemma ApplyFourAt(res: Dict, a: Row, top: map<string, Value>, sub: map<string, Value>)
    requires |a| >= 4 && Entry(res, a[0]) == Map(top) && Entry(top, a[1]) == Map(sub)
    ensures Apply(res, a) == Ok(res[a[0] := Map(top[a[1] := Map(sub[a[2] := Map(PairsValue(a[1..]))])])])
  {
    ApplyDeep(res, a);
  }

  /** Two rows of four or more fields on one key and sub-key, folded one after the other. */
  lemma FourAfterFour(res: Dict, a: Row, b: Row)
    requires |a| >= 4 && |b| >= 4 && a[0] == b[0] && a[1] == b[1]
    requires !Clashes(res, a)
    ensures Entry(res, a[0]).Map? && Entry(Entry(res, a[0]).m, a[1]).Map?
    ensures !Clashes(Apply(res, a).value, b)
    ensures var top := Entry(res, a[0]).m;
            var sub := Entry(top, a[1]).m;
            Apply(Apply(res, a).value, b) ==
              Ok(res[a[0] := Map(top[a[1] :=
                Map(sub[a[2] := Map(PairsValue(a[1..]))][b[2] := Map(PairsValue(b[1..]))])])])
  {
    var k, s := a[0], a[1];
    ApplyDeep(res, a);
    var top := Entry(res, k).m;
    var sub := Entry(top, s).m;
    var pa := Map(PairsValue(a[1..]));
    ApplyFourAt(res, a, top, sub);
    var ra := res[k := Map(top[s := Map(sub[a[2] := pa])])];
    ApplyFourAt(ra, b, top[s := Map(sub[a[2] := pa])], sub[a[2] := pa]);
    var both := Map(sub[a[2] := pa][b[2] := Map(PairsValue(b[1..]))]);
    UpdateTwice(top, s, Map(sub[a[2] := pa]), both);
    UpdateTwice(res, k, Map(top[s := Map(sub[a[2] := pa])]), Map(top[s := both]));
  }

  /** Same key and sub-key, both rows of four or more fields with different sub-sub-keys. */
  lemma CommutesOtherSubSubKey(res: Dict, a: Row, b: Row)
    requires |a| >= 4 && |b| >= 4 && a[0] == b[0] && a[1] == b[1] && a[2] != b[2]
    requires !Clashes(res, a) && !Clashes(res, b)
    ensures !Clashes(Apply(res, a).value, b) && !Clashes(Apply(res, b).value, a)
    ensures Apply(Apply(res, a).value, b) == Apply(Apply(res, b).value, a)
  {
    FourAfterFour(res, a, b);
    FourAfterFour(res, b, a);
    var sub := Entry(Entry(res, a[0]).m, a[1]).m;
    var pa := Map(PairsValue(a[1..]));
    var pb := Map(PairsValue(b[1..]));
    UpdatesCommute(sub, a[2], pa, b[2], pb);
  }

  // ---------------------------------------------------------------------------------------------
  // One pass over a list of rows

  lemma ReplaySingle(res: Dict, a: Row)
    ensures Replay(res, [a]) == Apply(res, a)
  {
    assert [a][1..] == [];
  }

  /** Folding `A + B` is folding `A` and then `B`; an exception in `A` ends the fold. */
  lemma {:induction false} ReplayAppend(res: Dict, A: seq<Row>, B: seq<Row>)
    ensures Replay(res, A + B) == if Replay(res, A).Err? then Replay(res, A) else Replay(Replay(res, A).value, B)
    decreases |A|
  {
    if A == [] {
      assert A + B == B;
    } else {
      assert (A + B)[0] == A[0];
      assert (A + B)[1..] == A[1..] + B;
      if Apply(res, A[0]).Ok? {
        ReplayAppend(Apply(res, A[0]).value, A[1..], B);
      }
    }
  }

  /** A consistent list of rows that fits the dictionary is folded without an exception, and the
      result still fits every row of the list. */
  lemma {:induction false} ReplayFits(res: Dict, S: seq<Row>, L: seq<Row>)
    requires Consistent(S) && Fits(res, S) && forall a :: a in L ==> a in S
    ensures Replay(res, L).Ok? && Fits(Replay(res, L).value, S)
    decreases |L|
  {
    if L != [] {
      forall a | a in S
        ensures !Clashes(Apply(res, L[0]).value, a)
      {
        ApplyKeepsFit(res, a, L[0]);
      }
      ReplayFits(Apply(res, L[0]).value, S, L[1..]);
    }
  }

  /** Keys are never removed, and every row of two or more fields leaves its key present. */
  lemma {:induction false} ReplayKeepsKeys(res: Dict, L: seq<Row>)
    requires Replay(res, L).Ok?
    ensures res.Keys <= Replay(res, L).value.Keys
    ensures forall a :: a in L && |a| >= 2 ==> a[0] in Replay(res, L).value
    decreases |L|
  {
    if L != [] {
      ApplyFrame(res, L[0]);
      ReplayKeepsKeys(Apply(res, L[0]).value, L[1..]);
      assert forall a :: a in L ==> a == L[0] || a in L[1..];
    }
  }

  /** Some row of `Q` writes the same innermost entry as `a`. */
  predicate Overwritten(a: Row, Q: seq<Row>)
  {
    exists b :: b in Q && SameSpot(a, b)
  }

  /** Moving a row to the end of a list: `a` followed by `Q` is `Q` followed by `a`, unless a row
      of `Q` overwrites what `a` wrote, in which case `a` has no effect at all. */
  lemma {:induction false} PassThrough(res: Dict, a: Row, Q: seq<Row>, S: seq<Row>)
    requires Consistent(S) && a in S && (forall b :: b in Q ==> b in S) && Fits(res, S)
    requires forall b :: b in Q ==> !(|a| == 2 && |b| == 2 && a[0] == b[0])
    ensures Replay(res, Q).Ok? && Fits(Replay(res, Q).value, S)
    ensures Replay(Apply(res, a).value, Q) ==
      if Overwritten(a, Q) then Replay(res, Q) else Ok(Apply(Replay(res, Q).value, a).value)
    decreases |Q|
  {
    ReplayFits(res, S, Q);
    var ra := Apply(res, a).value;
    if Q != [] {
      var b := Q[0];
      assert Q == [b] + Q[1..];
      ApplyKeepsFit(res, b, a);
      var rb := Apply(res, b).value;
      if SameSpot(a, b) {
        ApplyOverwrites(res, a, b);
      } else {
        ApplyCommutes(res, a, b);
        forall c | c in S
          ensures !Clashes(rb, c)
        {
          ApplyKeepsFit(res, c, b);
        }
        PassThrough(rb, a, Q[1..], S);
        assert Overwritten(a, Q) <==> Overwritten(a, Q[1..]);
      }
    }
  }

  /** Folding a consistent list a second time changes nothing. */
  lemma {:induction false} ReplayIdempotent(res: Dict, L: seq<Row>, S: seq<Row>)
    requires Consistent(S) && Fits(res, S) && forall a :: a in L ==> a in S
    ensures Replay(res, L).Ok?
    ensures Replay(Replay(res, L).value, L) == Replay(res, L)
    decreases |L|
  {
    ReplayFits(res, S, L);
    if L != [] {
      var Q, a := L[..|L| - 1], L[|L| - 1];
      assert L == Q + [a];
      ReplayAppend(res, Q, [a]);
      ReplayFits(res, S, Q);
      var v := Replay(res, Q).value;
      ReplayIdempotent(res, Q, S);
      ReplaySingle(v, a);
      var y := Apply(v, a).value;
      assert Replay(res, L) == Ok(y);
      ReplayAppend(y, Q, [a]);
      if |a| == 2 && exists b :: b in Q && |b| == 2 && b[0] == a[0] {
        ReplayKeepsKeys(res, Q);
        ApplyPresent(v, a);
      } else {
        PassThrough(v, a, Q, S);
        if !Overwritten(a, Q) {
          ApplyIdempotent(v, a);
          ReplaySingle(y, a);
        }
      }
    }
  }

  // ---------------------------------------------------------------------------------------------
  // First write wins, last write wins

  /** A string entry is never replaced by a fold that does not raise. */
  lemma {:induction false} ReplayKeepsString(res: Dict, L: seq<Row>, k: string)
    requires k in res && res[k].Str? && Replay(res, L).Ok?
    ensures k in Replay(res, L).value && Replay(res, L).value[k] == res[k]
    decreases |L|
  {
    if L != [] {
      ApplyFrame(res, L[0]);
      if |L[0]| == 2 && L[0][0] == k {
        ApplyPresent(res, L[0]);
      }
      ReplayKeepsString(Apply(res, L[0]).value, L[1..], k);
    }
  }

  /** The first 2-field row `[k, v]` of a list fixes `res[k]` to `v` when `k` was missing. */
  lemma {:induction false} ReplayFirstWins(res: Dict, L: seq<Row>, i: int)
    requires 0 <= i < |L| && |L[i]| == 2 && L[i][0] !in res
    requires forall j :: 0 <= j < i ==> |L[j]| < 2 || L[j][0] != L[i][0]
    requires Replay(res, L).Ok?
    ensures L[i][0] in Replay(res, L).value && Replay(res, L).value[L[i][0]] == Str(L[i][1])
    decreases |L|
  {
    var r1 := Apply(res, L[0]).value;
    ApplyFrame(res, L[0]);
    if i == 0 {
      ApplyFirstWins(res, L[0]);
      ReplayKeepsString(r1, L[1..], L[0][0]);
    } else {
      ReplayFirstWins(r1, L[1..], i - 1);
    }
  }

  /** `res[k][s]` survives every row that does not write it, as long as nothing raises. */
  lemma {:induction false} ReplayKeepsSubKey(res: Dict, L: seq<Row>, k: string, s: string)
    requires k in res && res[k].Map? && s in res[k].m && Replay(res, L).Ok?
    requires forall j :: 0 <= j < |L| && |L[j]| >= 3 && L[j][0] == k ==> L[j][1] != s
    ensures var r := Replay(res, L).value;
      k in r && r[k].Map? && s in r[k].m && r[k].m[s] == res[k].m[s]
    decreases |L|
  {
    if L != [] {
      var a := L[0];
      ApplyFrame(res, a);
      if |a| == 2 && a[0] == k {
        ApplyPresent(res, a);
      } else if |a| == 3 && a[0] == k {
        ApplySetsSubKey(res, a);
      } else if |a| >= 4 && a[0] == k {
        ApplySetsSubSubKey(res, a);
      }
      ReplayKeepsSubKey(Apply(res, a).value, L[1..], k, s);
    }
  }

  /** The last 3-field row `[k, s, v]` for a key and sub-key decides `res[k][s]`. */
  lemma {:induction false} ReplayLastWinsSubKey(res: Dict, L: seq<Row>, i: int)
    requires 0 <= i < |L| && |L[i]| == 3 && Replay(res, L).Ok?
    requires forall j :: i < j < |L| && |L[j]| >= 3 && L[j][0] == L[i][0] ==> L[j][1] != L[i][1]
    ensures var r := Replay(res, L).value;
      L[i][0] in r && r[L[i][0]].Map? && L[i][1] in r[L[i][0]].m && r[L[i][0]].m[L[i][1]] == Str(L[i][2])
    decreases |L|
  {
    var r1 := Apply(res, L[0]).value;
    if i == 0 {
      ApplySetsSubKey(res, L[0]);
      ReplayKeepsSubKey(r1, L[1..], L[0][0], L[0][1]);
    } else {
      ReplayLastWinsSubKey(r1, L[1..], i - 1);
    }
  }

  /** `res[k][s][t]` survives every row that writes neither it nor `res[k][s]`. */
  lemma {:induction false} ReplayKeepsSubSubKey(res: Dict, L: seq<Row>, k: string, s: string, t: string)
    requires k in res && res[k].Map? && s in res[k].m && res[k].m[s].Map? && t in res[k].m[s].m
    requires Replay(res, L).Ok?
    requires forall j :: 0 <= j < |L| && |L[j]| == 3 && L[j][0] == k ==> L[j][1] != s
    requires forall j :: 0 <= j < |L| && |L[j]| >= 4 && L[j][0] == k && L[j][1] == s ==> L[j][2] != t
    ensures var r := Replay(res, L).value;
      k in r && r[k].Map? && s in r[k].m && r[k].m[s].Map? && t in r[k].m[s].m && r[k].m[s].m[t] == res[k].m[s].m[t]
    decreases |L|
  {
    if L != [] {
      var a := L[0];
      ApplyFrame(res, a);
      if |a| == 2 && a[0] == k {
        ApplyPresent(res, a);
      } else if |a| == 3 && a[0] == k {
        ApplySetsSubKey(res, a);
      } else if |a| >= 4 && a[0] == k {
        ApplySetsSubSubKey(res, a);
      }
      ReplayKeepsSubSubKey(Apply(res, a).value, L[1..], k, s, t);
    }
  }

  /** The last row `[k, f1, f2, ...]` of four or more fields for `(k, f1, f2)` decides `res[k][f1][f2]`:
      the map of its field pairs, unless a later 3-field row replaces `res[k][f1]` altogether. */
  lemma {:induction false} ReplayLastWinsSubSubKey(res: Dict, L: seq<Row>, i: int)
    requires 0 <= i < |L| && |L[i]| >= 4 && Replay(res, L).Ok?
    requires forall j :: i < j < |L| && |L[j]| == 3 && L[j][0] == L[i][0] ==> L[j][1] != L[i][1]
    requires forall j :: i < j < |L| && |L[j]| >= 4 && L[j][0] == L[i][0] && L[j][1] == L[i][1] ==> L[j][2] != L[i][2]
    ensures var r := Replay(res, L).value;
      var k, s, t := L[i][0], L[i][1], L[i][2];
      k in r && r[k].Map? && s in r[k].m && r[k].m[s].Map? && t in r[k].m[s].m
      && r[k].m[s].m[t] == Map(PairsValue(L[i][1..]))
    decreases |L|
  {
    var r1 := Apply(res, L[0]).value;
    if i == 0 {
      ApplySetsSubSubKey(res, L[0]);
      ReplayKeepsSubSubKey(r1, L[1..], L[0][0], L[0][1], L[0][2]);
    } else {
      ReplayLastWinsSubSubKey(r1, L[1..], i - 1);
    }
  }

  // ---------------------------------------------------------------------------------------------
  // The replay of `read_csv` against one in-order pass

  /** Every row cleaned, or the exception of the first row that cannot be. */
  function CleanAll(rows: seq<Row>): (r: Result<seq<Row>, CsvError>)
    ensures r.Ok? ==> |r.value| == |rows| && forall i :: 0 <= i < |rows| ==> Clean(rows[i]) == Ok(r.value[i])
    ensures r.Err? <==> exists i :: 0 <= i < |rows| && Clean(rows[i]).Err?
  {
    if rows == [] then Ok([])
    else
      var row :- Clean(rows[0]);
      var rest :- CleanAll(rows[1..]);
      assert forall i :: 1 <= i < |rows| ==> rows[1..][i - 1] == rows[i];
      Ok([row] + rest)
  }

  /** One in-order pass over the cleaned rows: what `read_csv` would compute without the replay. */
  function OnePass(rows: seq<Row>): Result<Dict, CsvError>
  {
    var list :- CleanAll(rows);
    Replay(map[], list)
  }

  /** One turn of the outer loop of `read_csv`, when the row cleans and the replay does not raise. */
  lemma ReadLoopStep(list: seq<Row>, res: Dict, rest: seq<Row>)
    requires rest != [] && Clean(rest[0]).Ok? && Replay(res, list + [Clean(rest[0]).value]).Ok?
    ensures ReadLoop(list, res, rest) ==
      ReadLoop(list + [Clean(rest[0]).value], Replay(res, list + [Clean(rest[0]).value]).value, rest[1..])
  {
  }

  /** Replaying `list + [row]` over the result of `list` is one pass over `list + [row]`. */
  lemma ReplayExtends(list: seq<Row>, row: Row, S: seq<Row>)
    requires Consistent(S) && forall a :: a in list + [row] ==> a in S
    ensures Replay(map[], list).Ok?
    ensures Replay(Replay(map[], list).value, list + [row]) == Replay(map[], list + [row])
  {
    assert Fits(map[], S);
    ReplayFits(map[], S, list);
    var r := Replay(map[], list).value;
    ReplayAppend(r, list, [row]);
    ReplayIdempotent(map[], list, S);
    ReplayAppend(map[], list, [row]);
  }

  lemma CleanAllSplit(rest: seq<Row>)
    requires rest != [] && CleanAll(rest).Ok?
    ensures Clean(rest[0]).Ok? && CleanAll(rest[1..]).Ok?
    ensures CleanAll(rest).value == [Clean(rest[0]).value] + CleanAll(rest[1..]).value
  {
  }

  lemma {:induction false} ReadLoopIsOnePass(list: seq<Row>, rest: seq<Row>)
    requires CleanAll(rest).Ok? && Consistent(list + CleanAll(rest).value)
    ensures Replay(map[], list).Ok?
    ensures ReadLoop(list, Replay(map[], list).value, rest) == Replay(map[], list + CleanAll(rest).value)
    decreases |rest|
  {
    var S := list + CleanAll(rest).value;
    assert Fits(map[], S);
    ReplayFits(map[], S, list);
    if rest == [] {
      assert S == list;
    } else {
      CleanAllSplit(rest);
      var row := Clean(rest[0]).value;
      var list' := list + [row];
      assert S == list' + CleanAll(rest[1..]).value;
      ReplayExtends(list, row, S);
      ReplayFits(map[], S, list');
      ReadLoopStep(list, Replay(map[], list).value, rest);
      ReadLoopIsOnePass(list', rest[1..]);
    }
  }

  /** Replaying the accumulated rows after every new row, as `read_csv` does, gives the same
      dictionary as one in-order pass, provided no key or sub-key is used by rows of different lengths. */
  lemma ReadCsvIsOnePass(rows: seq<Row>)
    requires CleanAll(rows).Ok? && Consistent(CleanAll(rows).value)
    ensures OnePass(rows).Ok?
    ensures ReadCsvSpec(rows) == OnePass(rows)
  {
    assert [] + CleanAll(rows).value == CleanAll(rows).value;
    ReadLoopIsOnePass([], rows);
    ReplayFits(map[], CleanAll(rows).value, CleanAll(rows).value);
  }

  /** For a consistent file, the first 2-field row `[k, v]` decides `res[k]`. */
  lemma ReadCsvFirstWins(rows: seq<Row>, i: int)
    requires CleanAll(rows).Ok? && Consistent(CleanAll(rows).value)
    requires var L := CleanAll(rows).value;
      0 <= i < |L| && |L[i]| == 2 && forall j :: 0 <= j < i ==> |L[j]| < 2 || L[j][0] != L[i][0]
    ensures var L := CleanAll(rows).value;
      ReadCsvSpec(rows).Ok? && L[i][0] in ReadCsvSpec(rows).value && ReadCsvSpec(rows).value[L[i][0]] == Str(L[i][1])
  {
    ReadCsvIsOnePass(rows);
    ReplayFirstWins(map[], CleanAll(rows).value, i);
  }

  /** For a consistent file, the last 3-field row `[k, s, v]` decides `res[k][s]`. */
  lemma ReadCsvLastWinsSubKey(rows: seq<Row>, i: int)
    requires CleanAll(rows).Ok? && Consistent(CleanAll(rows).value)
    requires var L := CleanAll(rows).value;
      0 <= i < |L| && |L[i]| == 3
      && forall j :: i < j < |L| && |L[j]| >= 3 && L[j][0] == L[i][0] ==> L[j][1] != L[i][1]
    ensures var L := CleanAll(rows).value;
      var r := ReadCsvSpec(rows);
      r.Ok? && L[i][0] in r.value && r.value[L[i][0]].Map? && L[i][1] in r.value[L[i][0]].m
      && r.value[L[i][0]].m[L[i][1]] == Str(L[i][2])
  {
    ReadCsvIsOnePass(rows);
    ReplayLastWinsSubKey(map[], CleanAll(rows).value, i);
  }

  /** A row that is empty, or empty once its trailing "" is gone, makes `read_csv` raise. */
  lemma {:induction false} ReadLoopRaisesOnEmptyRow(list: seq<Row>, res: Dict, rest: seq<Row>)
    requires CleanAll(rest).Err?
    ensures ReadLoop(list, res, rest).Err?
    decreases |rest|
  {
    if Clean(rest[0]).Ok? {
      var row := Clean(rest[0]).value;
      if Replay(res, list + [row]).Ok? {
        ReadLoopRaisesOnEmptyRow(list + [row], Replay(res, list + [row]).value, rest[1..]);
      }
    }
  }

  lemma ReadCsvRaisesOnEmptyRow(rows: seq<Row>, i: int)
    requires 0 <= i < |rows| && (rows[i] == [] || rows[i] == [""])
    ensures ReadCsvSpec(rows).Err?
  {
    ReadLoopRaisesOnEmptyRow([], map[], rows);
  }

  // ---------------------------------------------------------------------------------------------
  // Files that raise on a string entry

  /** A row of three or more fields with key `k`: it needs `res[k]` to be a dictionary. */
  predicate Wide(row: Row, k: string)
  {
    |row| >= 3 && row[0] == k
  }

  /** A row of four or more fields with key `k` and sub-key `s`: it needs `res[k][s]` to be a dictionary. */
  predicate SubWide(row: Row, k: string, s: string)
  {
    |row| >= 4 && row[0] == k && row[1] == s
  }

  /** `res[k]` holds a string. */
  predicate StrAt(res: Dict, k: string)
  {
    k in res && res[k].Str?
  }

  /** `res[k][s]` holds a string. */
  predicate SubStrAt(res: Dict, k: string, s: string)
  {
    k in res && res[k].Map? && s in res[k].m && res[k].m[s].Str?
  }

  /** A string under `k` survives a row that does not raise, and such a row is not wide on `k`. */
  lemma ApplyStrAt(res: Dict, a: Row, k: string)
    requires StrAt(res, k) && Apply(res, a).Ok?
    ensures StrAt(Apply(res, a).value, k) && !Wide(a, k)
  {
    ApplyFrame(res, a);
    if |a| == 2 && a[0] == k {
      ApplyPresent(res, a);
    }
  }

  /** A string under `k` and `s` survives a row that does not raise, and such a row is not
      wide on `k` and `s`. */
  lemma ApplySubStrAt(res: Dict, a: Row, k: string, s: string)
    requires SubStrAt(res, k, s) && Apply(res, a).Ok?
    ensures SubStrAt(Apply(res, a).value, k, s) && !SubWide(a, k, s)
  {
    ApplyFrame(res, a);
    if |a| == 2 && a[0] == k {
      ApplyPresent(res, a);
    } else if |a| == 3 && a[0] == k {
      ApplySetsSubKey(res, a);
    } else if |a| >= 4 && a[0] == k {
      ApplySetsSubSubKey(res, a);
    }
  }

  /** A key that is missing or holds a string stays so under a row that is not wide on it. */
  lemma ApplyNoMapAt(res: Dict, a: Row, k: string)
    requires (k !in res || StrAt(res, k)) && !Wide(a, k) && Apply(res, a).Ok?
    ensures k !in Apply(res, a).value || StrAt(Apply(res, a).value, k)
  {
    ApplyFrame(res, a);
    if |a| == 2 && a[0] == k {
      ApplyFirstWins(res, a);
    }
  }

  /** A list with a row wide on `k` raises when it is folded into a dictionary with a string under `k`. */
  lemma {:induction false} ReplayStrClash(res: Dict, L: seq<Row>, k: string, j: int)
    requires StrAt(res, k) && 0 <= j < |L| && Wide(L[j], k)
    ensures Replay(res, L).Err?
    decreases |L|
  {
    if Apply(res, L[0]).Ok? && j > 0 {
      ApplyStrAt(res, L[0], k);
      assert L[1..][j - 1] == L[j];
      ReplayStrClash(Apply(res, L[0]).value, L[1..], k, j - 1);
    }
  }

  /** A list with a row wide on `k` and `s` raises when it is folded into a dictionary with a
      string under `k` and `s`. */
  lemma {:induction false} ReplaySubStrClash(res: Dict, L: seq<Row>, k: string, s: string, j: int)
    requires SubStrAt(res, k, s) && 0 <= j < |L| && SubWide(L[j], k, s)
    ensures Replay(res, L).Err?
    decreases |L|
  {
    if Apply(res, L[0]).Ok? && j > 0 {
      ApplySubStrAt(res, L[0], k, s);
      assert L[1..][j - 1] == L[j];
      ReplaySubStrClash(Apply(res, L[0]).value, L[1..], k, s, j - 1);
    }
  }

  /** A string under `k` and `s` survives a fold that does not raise. */
  lemma {:induction false} ReplaySubStrAt(res: Dict, L: seq<Row>, k: string, s: string)
    requires SubStrAt(res, k, s) && Replay(res, L).Ok?
    ensures SubStrAt(Replay(res, L).value, k, s)
    decreases |L|
  {
    if L != [] {
      ApplySubStrAt(res, L[0], k, s);
      ReplaySubStrAt(Apply(res, L[0]).value, L[1..], k, s);
    }
  }

  /** A key missing or holding a string stays so under a fold of rows that are not wide on it. */
  lemma {:induction false} ReplayNoMapAt(res: Dict, L: seq<Row>, k: string)
    requires (k !in res || StrAt(res, k)) && Replay(res, L).Ok?
    requires forall j :: 0 <= j < |L| ==> !Wide(L[j], k)
    ensures k !in Replay(res, L).value || StrAt(Replay(res, L).value, k)
    decreases |L|
  {
    if L != [] {
      ApplyNoMapAt(res, L[0], k);
      assert forall j :: 0 <= j < |L[1..]| ==> L[1..][j] == L[j + 1];
      ReplayNoMapAt(Apply(res, L[0]).value, L[1..], k);
    }
  }

  /** A 2-field row on a key that no earlier row made a dictionary leaves a string there. */
  lemma {:induction false} ReplayReachesStr(res: Dict, L: seq<Row>, k: string, i: int)
    requires (k !in res || StrAt(res, k)) && Replay(res, L).Ok?
    requires 0 <= i < |L| && |L[i]| == 2 && L[i][0] == k
    requires forall j :: 0 <= j < i ==> !Wide(L[j], k)
    ensures StrAt(Replay(res, L).value, k)
    decreases |L|
  {
    var r1 := Apply(res, L[0]).value;
    if i == 0 {
      ApplyFirstWins(res, L[0]);
      ReplayKeepsString(r1, L[1..], k);
    } else {
      ApplyNoMapAt(res, L[0], k);
      assert forall j :: 0 <= j < |L[1..]| ==> L[1..][j] == L[j + 1];
      ReplayReachesStr(r1, L[1..], k, i - 1);
    }
  }

  /** A 3-field row `[k, s, v]` leaves a string under `k` and `s`. */
  lemma {:induction false} ReplayReachesSubStr(res: Dict, L: seq<Row>, k: string, s: string, i: int)
    requires Replay(res, L).Ok? && 0 <= i < |L| && |L[i]| == 3 && L[i][0] == k && L[i][1] == s
    ensures SubStrAt(Replay(res, L).value, k, s)
    decreases |L|
  {
    var r1 := Apply(res, L[0]).value;
    if i == 0 {
      ApplySetsSubKey(res, L[0]);
      ReplaySubStrAt(r1, L[1..], k, s);
    } else {
      assert L[1..][i - 1] == L[i];
      ReplayReachesSubStr(r1, L[1..], k, s, i - 1);
    }
  }

  /** The outer loop raises once `res[k]` is a string and a later row is wide on `k`. */
  lemma {:induction false} ReadLoopStrClash(list: seq<Row>, res: Dict, rest: seq<Row>, k: string, j: int)
    requires StrAt(res, k) && 0 <= j < |rest| && Clean(rest[j]).Ok? && Wide(Clean(rest[j]).value, k)
    ensures ReadLoop(list, res, rest).Err?
    decreases |rest|
  {
    if Clean(rest[0]).Ok? {
      var L := list + [Clean(rest[0]).value];
      if Replay(res, L).Ok? {
        if j == 0 {
          ReplayStrClash(res, L, k, |list|);
        } else {
          ReplayKeepsString(res, L, k);
          assert rest[1..][j - 1] == rest[j];
          ReadLoopStrClash(L, Replay(res, L).value, rest[1..], k, j - 1);
        }
      }
    }
  }

  /** The outer loop raises once `res[k][s]` is a string and a later row is wide on `k` and `s`. */
  lemma {:induction false} ReadLoopSubStrClash(list: seq<Row>, res: Dict, rest: seq<Row>, k: string, s: string, j: int)
    requires SubStrAt(res, k, s) && 0 <= j < |rest| && Clean(rest[j]).Ok? && SubWide(Clean(rest[j]).value, k, s)
    ensures ReadLoop(list, res, rest).Err?
    decreases |rest|
  {
    if Clean(rest[0]).Ok? {
      var L := list + [Clean(rest[0]).value];
      if Replay(res, L).Ok? {
        if j == 0 {
          ReplaySubStrClash(res, L, k, s, |list|);
        } else {
          ReplaySubStrAt(res, L, k, s);
          assert rest[1..][j - 1] == rest[j];
          ReadLoopSubStrClash(L, Replay(res, L).value, rest[1..], k, s, j - 1);
        }
      }
    }
  }

  /** The outer loop raises when a 2-field row on `k`, before which no row was wide on `k`, is
      followed by a row wide on `k`. */
  lemma {:induction false} ReadLoopStrThenWide(list: seq<Row>, res: Dict, rest: seq<Row>, k: string, i: int, j: int)
    requires k !in res || StrAt(res, k)
    requires forall m :: 0 <= m < |list| ==> !Wide(list[m], k)
    requires 0 <= i < j < |rest|
    requires Clean(rest[i]).Ok? && |Clean(rest[i]).value| == 2 && Clean(rest[i]).value[0] == k
    requires forall m :: 0 <= m < i ==> Clean(rest[m]).Ok? ==> !Wide(Clean(rest[m]).value, k)
    requires Clean(rest[j]).Ok? && Wide(Clean(rest[j]).value, k)
    ensures ReadLoop(list, res, rest).Err?
    decreases |rest|
  {
    if Clean(rest[0]).Ok? {
      var row := Clean(rest[0]).value;
      var L := list + [row];
      assert forall m :: 0 <= m < |list| ==> L[m] == list[m];
      assert rest[1..][j - 1] == rest[j];
      if Replay(res, L).Ok? {
        if i == 0 {
          ReplayReachesStr(res, L, k, |list|);
          ReadLoopStrClash(L, Replay(res, L).value, rest[1..], k, j - 1);
        } else {
          ReplayNoMapAt(res, L, k);
          assert forall m :: 0 <= m < i - 1 ==> rest[1..][m] == rest[m + 1];
          assert rest[1..][i - 1] == rest[i];
          ReadLoopStrThenWide(L, Replay(res, L).value, rest[1..], k, i - 1, j - 1);
        }
      }
    }
  }

  /** The outer loop raises when a 3-field row `[k, s, v]` is followed by a row wide on `k` and `s`. */
  lemma {:induction false} ReadLoopSubStrThenWide(list: seq<Row>, res: Dict, rest: seq<Row>,
                                                  k: string, s: string, i: int, j: int)
    requires 0 <= i < j < |rest|
    requires Clean(rest[i]).Ok? && var a := Clean(rest[i]).value; |a| == 3 && a[0] == k && a[1] == s
    requires Clean(rest[j]).Ok? && SubWide(Clean(rest[j]).value, k, s)
    ensures ReadLoop(list, res, rest).Err?
    decreases |rest|
  {
    if Clean(rest[0]).Ok? {
      var L := list + [Clean(rest[0]).value];
      assert rest[1..][j - 1] == rest[j];
      if Replay(res, L).Ok? {
        if i == 0 {
          ReplayReachesSubStr(res, L, k, s, |list|);
          ReadLoopSubStrClash(L, Replay(res, L).value, rest[1..], k, s, j - 1);
        } else {
          assert rest[1..][i - 1] == rest[i];
          ReadLoopSubStrThenWide(L, Replay(res, L).value, rest[1..], k, s, i - 1, j - 1);
        }
      }
    }
  }

  /** A file raises when a 2-field row `[k, v]`, before which no row of three or more fields has
      key `k`, is followed by a row of three or more fields with key `k`: `res[k]` is then a
      string that the later row needs to be a dictionary. */
  lemma ReadCsvRaisesOnStrKey(rows: seq<Row>, i: int, j: int)
    requires 0 <= i < j < |rows|
    requires Clean(rows[i]).Ok? && |Clean(rows[i]).value| == 2
    requires forall m :: 0 <= m < i ==> Clean(rows[m]).Ok? ==> !Wide(Clean(rows[m]).value, Clean(rows[i]).value[0])
    requires Clean(rows[j]).Ok? && Wide(Clean(rows[j]).value, Clean(rows[i]).value[0])
    ensures ReadCsvSpec(rows).Err?
  {
    ReadLoopStrThenWide([], map[], rows, Clean(rows[i]).value[0], i, j);
  }

  /** A file raises when a 3-field row `[k, s, v]` is followed by a row of four or more fields with
      key `k` and sub-key `s`: `res[k][s]` is then a string that the later row needs to be a dictionary. */
  lemma ReadCsvRaisesOnStrSubKey(rows: seq<Row>, i: int, j: int)
    requires 0 <= i < j < |rows|
    requires Clean(rows[i]).Ok? && |Clean(rows[i]).value| == 3
    requires Clean(rows[j]).Ok? && SubWide(Clean(rows[j]).value, Clean(rows[i]).value[0], Clean(rows[i]).value[1])
    ensures ReadCsvSpec(rows).Err?
  {
    var a := Clean(rows[i]).value;
    ReadLoopSubStrThenWide([], map[], rows, a[0], a[1], i, j);
  }

  /** Without the consistency condition the replay can raise where one pass does not: a row
      `[k, s, x, y]`, then `[k, s, v]` turning `res[k][s]` into a string, then any further row. */
  lemma ReplayCanRaise()
    ensures OnePass([["k", "s", "x", "y"], ["k", "s", "v"], ["z", "w"]]).Ok?
    ensures ReadCsvSpec([["k", "s", "x", "y"], ["k", "s", "v"], ["z", "w"]]) == Err(StrItemAssignment)
  {
    var r1: Row, r2: Row, r3: Row := ["k", "s", "x", "y"], ["k", "s", "v"], ["z", "w"];
    var rows := [r1, r2, r3];
    assert Clean(r1) == Ok(r1) && Clean(r2) == Ok(r2) && Clean(r3) == Ok(r3);
    assert rows[1..] == [r2, r3] && [r2, r3][1..] == [r3] && [r3][1..] == [];
    assert [r3] + [] == [r3] && [r2] + [r3] == [r2, r3] && [r1] + [r2, r3] == rows;
    assert CleanAll([r3]) == Ok([r3]);
    assert CleanAll([r2, r3]) == Ok([r2, r3]);
    assert CleanAll(rows) == Ok(rows);
    var leaf := Map(map["x" := Map(PairsValue(r1[1..]))]);
    var d1 := map["k" := Map(map["s" := leaf])];
    var d2 := map["k" := Map(map["s" := Str("v")])];
    assert Apply(map[], r1) == Ok(d1);
    assert map["s" := leaf]["s" := Str("v")] == map["s" := Str("v")];
    assert d1["k" := Map(map["s" := Str("v")])] == d2;
    assert Apply(d1, r2) == Ok(d2);
    assert Apply(d2, r3) == Ok(d2["z" := Str("w")]);
    assert Replay(d2["z" := Str("w")], []) == Ok(d2["z" := Str("w")]);
    assert Replay(d2, [r3]) == Ok(d2["z" := Str("w")]);
    assert Replay(d1, [r2, r3]) == Ok(d2["z" := Str("w")]);
    assert Replay(map[], rows) == Ok(d2["z" := Str("w")]);
    // the replay of read_csv
    assert Replay(map[], [r1]) == Ok(d1) by { ReplaySingle(map[], r1); }
    assert Replay(d1, [r1, r2]) == Ok(d2) by {
      ApplyIdempotent(map[], r1);
      assert [r1, r2][1..] == [r2];
      ReplaySingle(d1, r2);
    }
    assert Clashes(d2, r1);
    assert Replay(d2, [r1, r2, r3]) == Err(StrItemAssignment);
    assert ReadLoop([r1, r2, r3], d2, []) == Ok(d2);
    assert ReadLoop([r1, r2], d2, [r3]) == Err(StrItemAssignment) by {
      assert [r1, r2] + [r3] == [r1, r2, r3];
    }
    assert ReadLoop([r1], d1, [r2, r3]) == Err(StrItemAssignment) by {
      assert [r1] + [r2] == [r1, r2];
      assert [r2, r3][1..] == [r3];
    }
    assert ReadLoop([], map[], rows) == Err(StrItemAssignment) by {
      assert [] + [r1] == [r1];
      assert rows[1..] == [r2, r3];
    }
  }
}
