/** The EMBA CSV reader of `read_csv`: row trailer cleanup and the fold of the rows into a nested dictionary. */
module CsvRead {
  import opened Outcomes

  /** One already tokenised, semicolon-separated CSV row. */
  type Row = seq<string>

  /** A value of the result dictionary: a string or a nested dictionary. */
  datatype Value = Str(s: string) | Map(m: map<string, Value>)

  type Dict = map<string, Value>

  /** The exceptions `read_csv` lets escape. */
  datatype CsvError =
    | EmptyRow            // IndexError: `row[-1]` on a row that is (or becomes) empty
    | StrHasNoKeys        // AttributeError: `.keys()` on a string entry
    | StrItemAssignment   // TypeError: item assignment into a string entry

  /** Trailer cleanup: drop one trailing "" and then one trailing "NA". */
  function Clean(row: Row): (r: Result<Row, CsvError>)
    ensures r.Err? <==> row == [] || row == [""]
    ensures r.Err? ==> r.error == EmptyRow
    ensures r.Ok? ==> |row| - 2 <= |r.value| <= |row| && r.value == row[..|r.value|]
    ensures r.Ok? ==> var dropped := row[|r.value|..];
      dropped == [] || dropped == [""] || dropped == ["NA"] || dropped == ["NA", ""]
    ensures r.Ok? ==> (row[|row| - 1] == "" <==> "" in row[|r.value|..])
    ensures r.Ok? ==> ("NA" in row[|r.value|..] <==>
                        (if row[|row| - 1] == "" then row[|row| - 2] else row[|row| - 1]) == "NA")
  {
    if row == [] then Err(EmptyRow)
    else
      var r1 := if row[|row| - 1] == "" then row[..|row| - 1] else row;
      if r1 == [] then Err(EmptyRow)
      else if r1[|r1| - 1] == "NA" then Ok(r1[..|r1| - 1])
      else Ok(r1)
  }

  /** Field `j` of `f` starts a pair, and no later pair has the same name. */
  predicate LastPairAt(f: seq<string>, j: int)
  {
    && 0 <= j && j + 1 < |f| && j % 2 == 0
    && forall i :: j < i && i + 1 < |f| && i % 2 == 0 ==> f[i] != f[j]
  }

  /** The dictionary comprehension `{f[j]: f[j + 1] for even j}` over the fields after the key. */
  function Pairs(f: seq<string>): map<string, string>
  {
    if |f| < 2 then map[] else map[f[0] := f[1]] + Pairs(f[2..])
  }

  /** The names of the pairs are the even-indexed fields that have a partner; an unpaired last field is dropped. */
  lemma {:induction false} PairsKeys(f: seq<string>, k: string)
    ensures k in Pairs(f) <==> exists j :: 0 <= j && j + 1 < |f| && j % 2 == 0 && f[j] == k
  {
    if |f| >= 2 {
      PairsKeys(f[2..], k);
      if k in Pairs(f[2..]) {
        var j :| 0 <= j && j + 1 < |f[2..]| && j % 2 == 0 && f[2..][j] == k;
        assert f[j + 2] == k;
      }
      if j :| 0 <= j && j + 1 < |f| && j % 2 == 0 && f[j] == k && j >= 2 {
        assert f[2..][j - 2] == k;
      }
    }
  }

  /** A later pair with the same name overrides an earlier one: the value of a name is its last partner. */
  lemma {:induction false} PairsLastWins(f: seq<string>, j: int)
    requires LastPairAt(f, j)
    ensures f[j] in Pairs(f) && Pairs(f)[f[j]] == f[j + 1]
  {
    if j >= 2 {
      assert LastPairAt(f[2..], j - 2) by {
        forall i | j - 2 < i && i + 1 < |f[2..]| && i % 2 == 0
          ensures f[2..][i] != f[2..][j - 2]
        {
          assert f[2..][i] == f[i + 2];
        }
      }
      PairsLastWins(f[2..], j - 2);
    } else if |f| >= 4 {
      PairsKeys(f[2..], f[0]);
      forall i | 0 <= i && i + 1 < |f[2..]| && i % 2 == 0
        ensures f[2..][i] != f[0]
      {
        assert f[2..][i] == f[i + 2];
      }
    }
  }

  /** The pairs as a nested dictionary of string values. */
  function PairsValue(f: seq<string>): (r: Dict)
    ensures r.Keys == Pairs(f).Keys
    ensures forall k :: k in r ==> r[k] == Str(Pairs(f)[k])
  {
    var p := Pairs(f);
    map k | k in p :: Str(p[k])
  }

  /** The Python exception one row raises when it is folded into `res`: a row of three or more
      fields whose key holds a string, or a row of four or more whose sub-key holds a string. */
  predicate Clashes(res: Dict, row: Row)
  {
    && |row| >= 3 && row[0] in res
    && (res[row[0]].Str? || (|row| >= 4 && row[1] in res[row[0]].m && res[row[0]].m[row[1]].Str?))
  }

  /** One row of the inner loop folded into the dictionary. */
  function Apply(res: Dict, row: Row): (r: Result<Dict, CsvError>)
    ensures |row| < 2 ==> r == Ok(res)
    ensures r.Err? <==> Clashes(res, row)
    ensures r.Err? ==> r.error == (if res[row[0]].Str? && |row| >= 4 then StrHasNoKeys else StrItemAssignment)
  {
    if |row| == 2 then
      Ok(if row[0] in res then res else res[row[0] := Str(row[1])])
    else if |row| > 2 then
      var top := if row[0] in res then res[row[0]] else Map(map[]);
      if |row| > 3 then
        if top.Str? then Err(StrHasNoKeys)
        else
          var sub := if row[1] in top.m then top.m[row[1]] else Map(map[]);
          if sub.Str? then Err(StrItemAssignment)
          else Ok(res[row[0] := Map(top.m[row[1] := Map(sub.m[row[2] := Map(PairsValue(row[1..]))])])])
      else if top.Str? then Err(StrItemAssignment)
      else Ok(res[row[0] := Map(top.m[row[1] := Str(row[2])])])
    else Ok(res)
  }

  /** One pass of the inner loop: every row of `list`, in order, folded into `res`. */
  function Replay(res: Dict, list: seq<Row>): (r: Result<Dict, CsvError>)
    decreases |list|
  {
    if list == [] then Ok(res)
    else
      var res' :- Apply(res, list[0]);
      Replay(res', list[1..])
  }

  /** The outer loop: clean the next row, append it to the accumulated list and replay the whole list. */
  function ReadLoop(list: seq<Row>, res: Dict, rest: seq<Row>): (r: Result<Dict, CsvError>)
    decreases |rest|
  {
    if rest == [] then Ok(res)
    else
      var row :- Clean(rest[0]);
      var res' :- Replay(res, list + [row]);
      ReadLoop(list + [row], res', rest[1..])
  }

  /** What `read_csv` returns (or raises) for the rows of one file. */
  function ReadCsvSpec(rows: seq<Row>): Result<Dict, CsvError>
  {
    ReadLoop([], map[], rows)
  }

  /** The body of the inner loop: one accumulated row written into `res` level by level. */
  method FoldRow(res0: Dict, ele: Row) returns (r: Result<Dict, CsvError>)
    ensures r == Apply(res0, ele)
  {
    var res := res0;
    if |ele| == 2 {
      if ele[0] !in res {
        res := res[ele[0] := Str(ele[1])];
      }
    } else if |ele| > 2 {
      if ele[0] !in res {
        res := res[ele[0] := Map(map[])];
      }
      if |ele[2..]| > 1 {
        ghost var top := if ele[0] in res0 then res0[ele[0]] else Map(map[]);
        assert res[ele[0]] == top;
        if res[ele[0]].Str? {
          return Err(StrHasNoKeys);
        }
        if ele[1] !in res[ele[0]].m {
          res := res[ele[0] := Map(res[ele[0]].m[ele[1] := Map(map[])])];
        }
        var sub := res[ele[0]].m[ele[1]];
        assert sub == if ele[1] in top.m then top.m[ele[1]] else Map(map[]);
        if sub.Str? {
          return Err(StrItemAssignment);
        }
        assert res[ele[0]].m == top.m[ele[1] := sub];
        assert res == res0[ele[0] := res[ele[0]]];
        ghost var leaf := Map(sub.m[ele[2] := Map(PairsValue(ele[1..]))]);
        assert res[ele[0]].m[ele[1] := leaf] == top.m[ele[1] := leaf];
        res := res[ele[0] := Map(res[ele[0]].m[ele[1] := Map(sub.m[ele[2] := Map(PairsValue(ele[1..]))])])];
        assert res == res0[ele[0] := Map(top.m[ele[1] := Map(sub.m[ele[2] := Map(PairsValue(ele[1..]))])])];
      } else {
        if res[ele[0]].Str? {
          return Err(StrItemAssignment);
        }
        ghost var top := if ele[0] in res0 then res0[ele[0]] else Map(map[]);
        assert res[ele[0]] == top;
        res := res[ele[0] := Map(res[ele[0]].m[ele[1] := Str(ele[2])])];
        assert res == res0[ele[0] := Map(top.m[ele[1] := Str(ele[2])])];
        assert Apply(res0, ele) == Ok(res0[ele[0] := Map(top.m[ele[1] := Str(ele[2])])]);
      }
    }
    return Ok(res);
  }

  /** `read_csv` as written: rows are cleaned in place, appended to `csvList`, and after every
      row the whole of `csvList` is folded into `res` again. */
  method ReadCsv(rows: seq<Row>) returns (r: Result<Dict, CsvError>)
    ensures r == ReadCsvSpec(rows)
  {
    var res: Dict := map[];
    var csvList: seq<Row> := [];
    var n := 0;
    while n < |rows|
      invariant 0 <= n <= |rows|
      invariant ReadLoop(csvList, res, rows[n..]) == ReadCsvSpec(rows)
    {
      var row := rows[n];
      if |row| == 0 {
        return Err(EmptyRow);
      }
      if row[|row| - 1] == "" {
        row := row[..|row| - 1];
      }
      if |row| == 0 {
        return Err(EmptyRow);
      }
      if row[|row| - 1] == "NA" {
        row := row[..|row| - 1];
      }
      assert Clean(rows[n]) == Ok(row);
      csvList := csvList + [row];
      ghost var start := res;
      var i := 0;
      while i < |csvList|
        invariant 0 <= i <= |csvList|
        invariant Replay(start, csvList) == Replay(res, csvList[i..])
      {
        var step := FoldRow(res, csvList[i]);
        if step.Err? {
          return Err(step.error);
        }
        res := step.value;
        assert csvList[i..][1..] == csvList[i + 1..];
        i := i + 1;
      }
      assert rows[n..][1..] == rows[n + 1..];
      n := n + 1;
    }
    r := Ok(res);
  }
}
