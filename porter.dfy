/** The EMBA log importer around `read_csv`: the per-CVE records of the `f20` aggregator file, the
    summary values of the `f50` aggregator file, and the file dispatch of `result_read_in`. */
module Porter {
  import opened Outcomes
  import opened Strings
  import opened CsvRead
  import opened CsvReplay

  /** The exceptions an import lets escape. */
  datatype ImportError =
    | Csv(e: CsvError)   // raised by `read_csv`
    | NoHeader           // StopIteration: `next(csv_reader)` on an empty file
    | NoDigits           // IndexError: `re.findall(...)[0]` on an entropy string without a digit

  // ---------------------------------------------------------------------------------------------
  // f20: one CVE per row

  /** The named columns of an `f20` record and the column each one is read from; column 2 is the key. */
  const F20_COLUMNS: seq<(string, nat)> := [
    ("Binary", 0), ("Version", 1), ("CVSS", 3), ("exploit db exploit available", 4),
    ("metasploit module", 5), ("trickest PoC", 6), ("Routersploit", 7), ("local exploit", 8),
    ("remote exploit", 9), ("DoS exploit", 10), ("known exploited vuln", 11)]

  /** The column holding the CVE identifier. */
  const F20_KEY_COLUMN: nat := 2

  /** The fewest fields a row needs: every one of columns 0 to 11 is read. */
  const F20_WIDTH: nat := 12

  type CveInfo = map<string, string>

  /** The record built from one full row: every named column holds the field of its index. */
  function RowInfo(row: Row): (r: CveInfo)
    requires |row| >= F20_WIDTH
    ensures forall i :: 0 <= i < |F20_COLUMNS| ==> F20_COLUMNS[i].0 in r && r[F20_COLUMNS[i].0] == row[F20_COLUMNS[i].1]
    ensures r.Keys == set i | 0 <= i < |F20_COLUMNS| :: F20_COLUMNS[i].0
  {
    map i | 0 <= i < |F20_COLUMNS| :: F20_COLUMNS[i].0 := row[F20_COLUMNS[i].1]
  }

  /** The rows after the header folded into the CVE map; a row too short for column 11 raises
      inside the `try` and is skipped. */
  function F20Fold(acc: map<string, CveInfo>, rows: seq<Row>): map<string, CveInfo>
    decreases |rows|
  {
    if rows == [] then acc
    else
      var acc' := if |rows[0]| >= F20_WIDTH then acc[rows[0][F20_KEY_COLUMN] := RowInfo(rows[0])] else acc;
      F20Fold(acc', rows[1..])
  }

  /** The CVE map `f20_csv` builds for the rows of one file, or the StopIteration of an empty file. */
  function F20Spec(rows: seq<Row>): Result<map<string, CveInfo>, ImportError>
  {
    if rows == [] then Err(NoHeader) else Ok(F20Fold(map[], rows[1..]))
  }

  /** `f20_csv` up to the database writes: skip the header, then fill the map row by row. */
  method F20Csv(rows: seq<Row>) returns (r: Result<map<string, CveInfo>, ImportError>)
    ensures r == F20Spec(rows)
  {
    if |rows| == 0 {
      return Err(NoHeader);
    }
    var res: map<string, CveInfo> := map[];
    var n := 1;
    while n < |rows|
      invariant 1 <= n <= |rows|
      invariant F20Fold(res, rows[n..]) == F20Fold(map[], rows[1..])
    {
      var row := rows[n];
      if |row| >= F20_WIDTH {
        res := res[row[F20_KEY_COLUMN] := RowInfo(row)];
      }
      assert rows[n..][1..] == rows[n + 1..];
      n := n + 1;
    }
    r := Ok(res);
  }

  /** The keys of the map are the CVE columns of the full rows, plus what was there before. */
  lemma {:induction false} F20FoldKeys(acc: map<string, CveInfo>, rows: seq<Row>, k: string)
    ensures k in F20Fold(acc, rows) <==>
      k in acc || exists i :: 0 <= i < |rows| && |rows[i]| >= F20_WIDTH && rows[i][F20_KEY_COLUMN] == k
    decreases |rows|
  {
    if rows != [] {
      var acc' := if |rows[0]| >= F20_WIDTH then acc[rows[0][F20_KEY_COLUMN] := RowInfo(rows[0])] else acc;
      F20FoldKeys(acc', rows[1..], k);
      if exists i :: 0 <= i < |rows[1..]| && |rows[1..][i]| >= F20_WIDTH && rows[1..][i][F20_KEY_COLUMN] == k {
        var i :| 0 <= i < |rows[1..]| && |rows[1..][i]| >= F20_WIDTH && rows[1..][i][F20_KEY_COLUMN] == k;
        assert rows[i + 1] == rows[1..][i];
      }
      if i :| 1 <= i < |rows| && |rows[i]| >= F20_WIDTH && rows[i][F20_KEY_COLUMN] == k {
        assert rows[1..][i - 1] == rows[i];
      }
    }
  }

  /** An entry is never touched by rows with another CVE or too few fields. */
  lemma {:induction false} F20FoldKeeps(acc: map<string, CveInfo>, rows: seq<Row>, k: string)
    requires k in acc
    requires forall i :: 0 <= i < |rows| && |rows[i]| >= F20_WIDTH ==> rows[i][F20_KEY_COLUMN] != k
    ensures k in F20Fold(acc, rows) && F20Fold(acc, rows)[k] == acc[k]
    decreases |rows|
  {
    if rows != [] {
      var acc' := if |rows[0]| >= F20_WIDTH then acc[rows[0][F20_KEY_COLUMN] := RowInfo(rows[0])] else acc;
      assert forall i :: 0 <= i < |rows[1..]| ==> rows[1..][i] == rows[i + 1];
      F20FoldKeeps(acc', rows[1..], k);
    }
  }

  /** A repeated CVE keeps the record of its last full row. */
  lemma {:induction false} F20FoldLastWins(acc: map<string, CveInfo>, rows: seq<Row>, i: int)
    requires 0 <= i < |rows| && |rows[i]| >= F20_WIDTH
    requires forall j :: i < j < |rows| && |rows[j]| >= F20_WIDTH ==> rows[j][F20_KEY_COLUMN] != rows[i][F20_KEY_COLUMN]
    ensures rows[i][F20_KEY_COLUMN] in F20Fold(acc, rows)
    ensures F20Fold(acc, rows)[rows[i][F20_KEY_COLUMN]] == RowInfo(rows[i])
    decreases |rows|
  {
    var acc' := if |rows[0]| >= F20_WIDTH then acc[rows[0][F20_KEY_COLUMN] := RowInfo(rows[0])] else acc;
    assert forall j :: 0 <= j < |rows[1..]| ==> rows[1..][j] == rows[j + 1];
    if i == 0 {
      F20FoldKeeps(acc', rows[1..], rows[0][F20_KEY_COLUMN]);
    } else {
      F20FoldLastWins(acc', rows[1..], i - 1);
    }
  }

  /** Folding two lists is folding the first and then the second. */
  lemma {:induction false} F20FoldAppend(acc: map<string, CveInfo>, a: seq<Row>, b: seq<Row>)
    ensures F20Fold(acc, a + b) == F20Fold(F20Fold(acc, a), b)
    decreases |a|
  {
    if a != [] {
      assert (a + b)[0] == a[0] && (a + b)[1..] == a[1..] + b;
      var acc' := if |a[0]| >= F20_WIDTH then acc[a[0][F20_KEY_COLUMN] := RowInfo(a[0])] else acc;
      F20FoldAppend(acc', a[1..], b);
    } else {
      assert a + b == b;
    }
  }

  /** `f20_csv` skips the header, maps every full row to its CVE and keeps the last record of a repeated CVE. */
  lemma F20Records(rows: seq<Row>, i: int)
    requires 1 <= i < |rows| && |rows[i]| >= F20_WIDTH
    requires forall j :: i < j < |rows| && |rows[j]| >= F20_WIDTH ==> rows[j][F20_KEY_COLUMN] != rows[i][F20_KEY_COLUMN]
    ensures F20Spec(rows).Ok?
    ensures rows[i][F20_KEY_COLUMN] in F20Spec(rows).value
    ensures F20Spec(rows).value[rows[i][F20_KEY_COLUMN]] == RowInfo(rows[i])
  {
    assert forall j :: 0 <= j < |rows[1..]| ==> rows[1..][j] == rows[j + 1];
    F20FoldLastWins(map[], rows[1..], i - 1);
  }

  /** The CVEs in the map are exactly the key columns of the full rows after the header. */
  lemma F20Keys(rows: seq<Row>, k: string)
    requires rows != []
    ensures F20Spec(rows).Ok?
    ensures k in F20Spec(rows).value <==>
      exists i :: 1 <= i < |rows| && |rows[i]| >= F20_WIDTH && rows[i][F20_KEY_COLUMN] == k
  {
    F20FoldKeys(map[], rows[1..], k);
    if exists i :: 0 <= i < |rows[1..]| && |rows[1..][i]| >= F20_WIDTH && rows[1..][i][F20_KEY_COLUMN] == k {
      var i :| 0 <= i < |rows[1..]| && |rows[1..][i]| >= F20_WIDTH && rows[1..][i][F20_KEY_COLUMN] == k;
      assert rows[i + 1] == rows[1..][i];
    }
    if i :| 1 <= i < |rows| && |rows[i]| >= F20_WIDTH && rows[i][F20_KEY_COLUMN] == k {
      assert rows[1..][i - 1] == rows[i];
    }
  }

  /** A row after the header with fewer than 12 fields leaves the map as if it were not there. */
  lemma F20SkipsShortRow(rows: seq<Row>, i: int)
    requires 1 <= i < |rows| && |rows[i]| < F20_WIDTH
    ensures F20Spec(rows) == F20Spec(rows[..i] + rows[i + 1..])
  {
    var body := rows[1..];
    var a, b := rows[1..i], rows[i + 1..];
    assert body == a + [rows[i]] + b;
    assert (rows[..i] + rows[i + 1..])[1..] == a + b;
    F20FoldAppend(map[], a + [rows[i]], b);
    F20FoldAppend(map[], a, [rows[i]]);
    F20FoldAppend(map[], a, b);
  }

  // ---------------------------------------------------------------------------------------------
  // f50: entropy extraction

  /** What `\d` matches, restricted to ASCII. */
  predicate IsDigit(c: char)
  {
    '0' <= c <= '9'
  }

  /** The end of the run of digits that starts at `i`. */
  function DigitsEnd(s: string, i: nat): (j: nat)
    requires i <= |s|
    ensures i <= j <= |s|
    ensures forall k :: i <= k < j ==> IsDigit(s[k])
    ensures j == |s| || !IsDigit(s[j])
    decreases |s| - i
  {
    if i < |s| && IsDigit(s[i]) then DigitsEnd(s, i + 1) else i
  }

  /** The position of the first digit at or after `i`, if any. */
  function FirstDigit(s: string, i: nat): (r: Option<nat>)
    requires i <= |s|
    ensures r.None? <==> forall k :: i <= k < |s| ==> !IsDigit(s[k])
    ensures r.Some? ==> i <= r.value < |s| && IsDigit(s[r.value]) && forall k :: i <= k < r.value ==> !IsDigit(s[k])
    decreases |s| - i
  {
    if i == |s| then None
    else if IsDigit(s[i]) then Some(i)
    else FirstDigit(s, i + 1)
  }

  /** The strings the pattern `\d+\.?\d*` matches: a digit first, then digits and at most one dot. */
  predicate NumberToken(t: string)
  {
    && |t| >= 1 && IsDigit(t[0])
    && (forall k :: 0 <= k < |t| ==> IsDigit(t[k]) || t[k] == '.')
    && (forall a, b :: 0 <= a < b < |t| && t[a] == '.' ==> t[b] != '.')
  }

  /** A string holding a character that is neither a digit nor a dot, or two dots, is no token. */
  lemma NotTokenAt(t: string, j: int)
    requires 0 < j < |t|
    requires !IsDigit(t[j]) && (t[j] != '.' || exists a :: 0 <= a < j && t[a] == '.')
    ensures !NumberToken(t)
  {
  }

  /** The end of the greedy match of `\d+\.?\d*` that starts at the digit at `i`: the longest token there. */
  function MatchEnd(s: string, i: nat): (j: nat)
    requires i < |s| && IsDigit(s[i])
    ensures i < j <= |s| && NumberToken(s[i..j])
    ensures forall n :: j < n <= |s| ==> !NumberToken(s[i..n])
  {
    var k := DigitsEnd(s, i);
    var j := if k < |s| && s[k] == '.' then DigitsEnd(s, k + 1) else k;
    assert NumberToken(s[i..j]) by {
      forall a, b | 0 <= a < b < |s[i..j]| && s[i..j][a] == '.'
        ensures s[i..j][b] != '.'
      {
        assert s[i..j][a] == s[i + a];
        assert s[i..j][b] == s[i + b];
      }
    }
    forall n | j < n <= |s|
      ensures !NumberToken(s[i..n])
    {
      assert s[i..n][j - i] == s[j];
      if j != k {
        assert s[i..n][k - i] == '.';
      }
      NotTokenAt(s[i..n], j - i);
    }
    j
  }

  /** The end of the run of dots that starts at `i`. */
  function DotsEnd(t: string, i: nat): (j: nat)
    requires i <= |t|
    ensures i <= j <= |t|
    ensures forall k :: i <= k < j ==> t[k] == '.'
    ensures j == |t| || t[j] != '.'
    decreases |t| - i
  {
    if i < |t| && t[i] == '.' then DotsEnd(t, i + 1) else i
  }

  /** The start of the run of dots that ends at `j`, not going below `lo`. */
  function DotsStart(t: string, lo: nat, j: nat): (i: nat)
    requires lo <= j <= |t|
    ensures lo <= i <= j
    ensures forall k :: i <= k < j ==> t[k] == '.'
    ensures i == lo || t[i - 1] != '.'
    decreases j
  {
    if j > lo && t[j - 1] == '.' then DotsStart(t, lo, j - 1) else j
  }

  /** Python's `str.strip('.')`: every leading and trailing dot removed. */
  function StripDots(t: string): (r: string)
    ensures |r| <= |t|
    ensures r == [] || (r[0] != '.' && r[|r| - 1] != '.')
    ensures t == [] || (t[0] != '.' && t[|t| - 1] != '.') ==> r == t
    ensures var a := DotsEnd(t, 0);
      && a + |r| <= |t| && r == t[a..a + |r|]
      && (forall k :: 0 <= k < a ==> t[k] == '.')
      && (forall k :: a + |r| <= k < |t| ==> t[k] == '.')
  {
    var a := DotsEnd(t, 0);
    var b := DotsStart(t, a, |t|);
    assert a == b || t[b - 1] != '.';
    t[a..b]
  }

  /** `strip('.')` keeps exactly the span between the outer runs of dots: any cut of `t` into dots,
      a part that neither starts nor ends with a dot, and dots again, is the one it returns. */
  lemma StripDotsExactly(t: string, a: int, b: int)
    requires 0 <= a <= b <= |t|
    requires forall k :: 0 <= k < a ==> t[k] == '.'
    requires forall k :: b <= k < |t| ==> t[k] == '.'
    requires a == b || (t[a] != '.' && t[b - 1] != '.')
    ensures StripDots(t) == t[a..b]
  {
    var a' := DotsEnd(t, 0);
    var r := StripDots(t);
    if a < b {
      assert a' == a;
      assert a' + |r| == b;
    }
  }

  /** `re.findall(r'(\d+\.?\d*)', s)[0].strip('.')`: the first number in the string without a trailing dot. */
  function EntropyDigits(s: string): (r: Result<string, ImportError>)
    ensures r.Err? <==> forall k :: 0 <= k < |s| ==> !IsDigit(s[k])
    ensures r.Err? ==> r.error == NoDigits
    ensures r.Ok? ==> var i := FirstDigit(s, 0).value; var j := MatchEnd(s, i);
      && r.value == StripDots(s[i..j])
      && i + |r.value| <= |s| && r.value == s[i..i + |r.value|]
      && NumberToken(r.value) && r.value[|r.value| - 1] != '.'
  {
    match FirstDigit(s, 0)
    case None => Err(NoDigits)
    case Some(i) =>
      MatchStrip(s, i);
      Ok(StripDots(s[i..MatchEnd(s, i)]))
  }

  /** The stripped match is a token that starts at the first digit and ends on a digit. */
  lemma MatchStrip(s: string, i: int)
    requires 0 <= i < |s| && IsDigit(s[i])
    ensures var r := StripDots(s[i..MatchEnd(s, i)]);
      && NumberToken(r) && r[|r| - 1] != '.' && i + |r| <= |s| && r == s[i..i + |r|]
  {
    var t := s[i..MatchEnd(s, i)];
    var r := StripDots(t);
    TokenStrip(t);
    if r != t {
      assert r == t[..|r|];
    }
  }

  /** Stripping the dots off a token leaves a token: only a lone trailing dot can go. */
  lemma TokenStrip(t: string)
    requires NumberToken(t)
    ensures var r := StripDots(t);
      NumberToken(r) && r[|r| - 1] != '.' && (r == t || r + "." == t)
  {
    if t[|t| - 1] == '.' {
      var u := t[..|t| - 1];
      assert |u| >= 1 && u[0] == t[0];
      assert u[|u| - 1] == t[|t| - 2] != '.';
      assert DotsStart(t, 0, |t|) == |t| - 1;
      assert StripDots(t) == u;
      assert u + "." == t;
    } else {
      assert StripDots(t) == t;
    }
  }

  /** The example in the importer's comment: a textual entropy report is reduced to its number. */
  lemma EntropyExample()
    ensures EntropyDigits(" 7.55 bits per byte.") == Ok("7.55")
  {
    var s := " 7.55 bits per byte.";
    assert s[0] == ' ' && s[1] == '7' && s[2] == '.' && s[3] == '5' && s[4] == '5' && s[5] == ' ';
    assert FirstDigit(s, 1) == Some(1);
    assert FirstDigit(s, 0) == Some(1);
    assert DigitsEnd(s, 1) == 2;
    assert DigitsEnd(s, 3) == 5;
    assert MatchEnd(s, 1) == 5;
    var t := s[1..5];
    assert t == "7.55";
    assert t[0] != '.' && t[|t| - 1] != '.';
  }

  // ---------------------------------------------------------------------------------------------
  // f50: the summary record

  /** How the entropy reaches `float()`: the integer default, the extracted number, or a nested
      dictionary that is passed on as it is. */
  datatype Entropy = EntropyZero | EntropyNumber(digits: string) | EntropyNested(m: Dict)

  /** A count as it reaches `int()`: the integer default or the value read from the file. */
  datatype Count = Zero | Raw(v: Value)

  /** The summary values `f50_csv` hands to the database. */
  datatype F50Summary = F50Summary(
    text: map<string, Value>,
    entropy: Entropy,
    counts: map<string, Count>,
    strcpyBin: Value)

  const FW_PATH := "FW_path"
  const ENTROPY_KEY := "entropy_value"
  const STRCPY_BIN_KEY := "strcpy_bin"

  /** The text values, each read with the default ''. */
  const TEXT_KEYS: seq<string> := ["emba_command", "architecture_verified", "os_verified"]

  /** The count values, each read with the default 0. */
  const COUNT_KEYS: seq<string> := [
    "files", "directories", "shell_scripts", "shell_script_vulns", "kernel_modules",
    "kernel_modules_lic", "interesting_files", "post_files", "canary", "canary_per", "relro",
    "relro_per", "no_exec", "no_exec_per", "pie", "pie_per", "stripped", "stripped_per",
    "bins_checked", "strcpy", "versions_identified", "cve_high", "cve_medium", "cve_low",
    "exploits", "metasploit_modules", "certificates", "certificates_outdated"]

  /** `res_dict.get("entropy_value", 0)` reduced to its number when it is a string. */
  function EntropyOf(res: Dict): (r: Result<Entropy, ImportError>)
    ensures r.Err? <==> ENTROPY_KEY in res && res[ENTROPY_KEY].Str?
                        && forall k :: 0 <= k < |res[ENTROPY_KEY].s| ==> !IsDigit(res[ENTROPY_KEY].s[k])
    ensures r.Err? ==> r.error == NoDigits
    ensures r == Ok(EntropyZero) <==> ENTROPY_KEY !in res
    ensures r.Ok? && r.value.EntropyNumber? ==>
      ENTROPY_KEY in res && res[ENTROPY_KEY].Str? && NumberToken(r.value.digits)
      && r.value.digits == EntropyDigits(res[ENTROPY_KEY].s).value
    ensures r.Ok? && r.value.EntropyNested? ==> ENTROPY_KEY in res && res[ENTROPY_KEY] == Map(r.value.m)
  {
    if ENTROPY_KEY !in res then Ok(EntropyZero)
    else match res[ENTROPY_KEY]
      case Str(s) =>
        var digits :- EntropyDigits(s);
        Ok(EntropyNumber(digits))
      case Map(m) => Ok(EntropyNested(m))
  }

  /** `int(res_dict.get(key, 0))` up to the conversion: a missing count is 0. */
  function CountOf(res: Dict, key: string): (c: Count)
    ensures c == Zero <==> key !in res
    ensures c.Raw? ==> key in res && c.v == res[key]
  {
    if key in res then Raw(res[key]) else Zero
  }

  /** `res_dict.get(key, default)`. */
  function Get(res: Dict, key: string, default: Value): (v: Value)
    ensures key in res ==> v == res[key]
    ensures key !in res ==> v == default
  {
    if key in res then res[key] else default
  }

  /** The summary `f50_csv` stores for the dictionary `read_csv` returned: `FW_path` popped,
      the entropy extracted, every text, count and the strcpy listing read with its default. */
  function F50Record(res: Dict): (r: Result<F50Summary, ImportError>)
    ensures r.Err? <==> ENTROPY_KEY in res && res[ENTROPY_KEY].Str?
                        && forall k :: 0 <= k < |res[ENTROPY_KEY].s| ==> !IsDigit(res[ENTROPY_KEY].s[k])
    ensures r.Ok? ==> r.value.counts.Keys == (set k | k in COUNT_KEYS)
    ensures r.Ok? ==> forall k :: k in COUNT_KEYS ==> r.value.counts[k] == (if k in res then Raw(res[k]) else Zero)
    ensures r.Ok? ==> r.value.text.Keys == (set k | k in TEXT_KEYS)
    ensures r.Ok? ==> forall k :: k in TEXT_KEYS ==> r.value.text[k] == (if k in res then res[k] else Str(""))
    ensures r.Ok? ==> r.value.strcpyBin == (if STRCPY_BIN_KEY in res then res[STRCPY_BIN_KEY] else Map(map[]))
    ensures r.Ok? ==> r.value.entropy == EntropyOf(res).value
    ensures r.Err? ==> r.error == NoDigits
  {
    var res' := res - {FW_PATH};
    var entropy :- EntropyOf(res');
    Ok(F50Summary(
      map k | k in TEXT_KEYS :: Get(res', k, Str("")),
      entropy,
      map k | k in COUNT_KEYS :: CountOf(res', k),
      Get(res', STRCPY_BIN_KEY, Map(map[]))))
  }

  /** Whatever the file says under `FW_path` has no effect on the summary. */
  lemma F50IgnoresFwPath(res: Dict, v: Value)
    ensures F50Record(res[FW_PATH := v]) == F50Record(res - {FW_PATH})
  {
    assert res[FW_PATH := v] - {FW_PATH} == res - {FW_PATH} - {FW_PATH};
  }

  /** `f50_csv` on the rows of a file: `read_csv` and then the summary. */
  function F50Spec(rows: seq<Row>): (r: Result<F50Summary, ImportError>)
    ensures ReadCsvSpec(rows).Err? ==> r == Err(Csv(ReadCsvSpec(rows).error))
    ensures ReadCsvSpec(rows).Ok? ==> var res := ReadCsvSpec(rows).value;
      && (r.Err? <==> ENTROPY_KEY in res && res[ENTROPY_KEY].Str?
                      && forall k :: 0 <= k < |res[ENTROPY_KEY].s| ==> !IsDigit(res[ENTROPY_KEY].s[k]))
      && (r.Err? ==> r.error == NoDigits)
      && (r.Ok? ==> r.value.entropy == EntropyOf(res).value)
  {
    match ReadCsvSpec(rows)
    case Err(e) => Err(Csv(e))
    case Ok(res) => F50Record(res)
  }

  /** In a consistent file, the first 2-field row `[key, v]` of a count decides that count. */
  lemma F50CountFromRow(rows: seq<Row>, i: int)
    requires CleanAll(rows).Ok? && Consistent(CleanAll(rows).value)
    requires var L := CleanAll(rows).value;
      0 <= i < |L| && |L[i]| == 2 && L[i][0] in COUNT_KEYS
      && forall j :: 0 <= j < i ==> |L[j]| < 2 || L[j][0] != L[i][0]
    ensures var L := CleanAll(rows).value;
      F50Spec(rows).Ok? ==> F50Spec(rows).value.counts[L[i][0]] == Raw(Str(L[i][1]))
  {
    ReadCsvFirstWins(rows, i);
  }

  // ---------------------------------------------------------------------------------------------
  // result_read_in: which importer each file of the log directory goes to

  /** One name of the directory listing and whether it names a regular file. */
  datatype DirEntry = DirEntry(name: string, isFile: bool)

  /** A call of one of the two importers on a path. */
  datatype Import = F50Import(path: string) | F20Import(path: string)

  const F50_FILE := "f50_base_aggregator.csv"
  const F20_FILE := "f20_vul_aggregator.csv"

  /** The directory of the CSV logs of one analysis. */
  function CsvLogDir(logRoot: string, analysisId: string): (d: string)
    ensures |d| > 0 && d[|d| - 1] == '/'
    ensures |d| > |logRoot| && d[..|logRoot|] == logRoot
  {
    logRoot + "/" + analysisId + "/emba_logs/csv_logs/"
  }

  /** The importer one path goes to: the f50 suffix is tested first, anything else is not imported.
      This is the specification of one step of `result_read_in`, used by `Imports` and the lemmas
      about it; the loop itself runs the method `TryImport`, which is proved to agree with it. */
  function Dispatch(path: string, isFile: bool): Option<Import>
  {
    if !isFile then None
    else if EndsWith(path, F50_FILE) then Some(F50Import(path))
    else if EndsWith(path, F20_FILE) then Some(F20Import(path))
    else None
  }

  /** The import made for one entry of the listing of `dir`. */
  function ImportOf(dir: string, e: DirEntry): Option<Import>
  {
    Dispatch(Join(dir, e.name), e.isFile)
  }

  /** The imports made for the entries of a listing, in listing order. */
  function Imports(dir: string, listing: seq<DirEntry>): (r: seq<Import>)
    ensures |r| <= |listing|
    decreases |listing|
  {
    if listing == [] then []
    else
      var last := listing[|listing| - 1];
      Imports(dir, listing[..|listing| - 1]) + AsList(ImportOf(dir, last))
  }

  /** The entries of an optional import as a list. */
  function AsList(x: Option<Import>): (r: seq<Import>)
    ensures |r| <= 1 && (r == [] <==> x.None?)
    ensures x.Some? ==> r == [x.value]
  {
    match x
    case Some(v) => [v]
    case None => []
  }

  /** One more entry of the listing adds its import, if any, at the end. */
  lemma ImportsSnoc(dir: string, listing: seq<DirEntry>, n: int, found: Option<Import>)
    requires 0 <= n < |listing|
    requires found == ImportOf(dir, listing[n])
    ensures Imports(dir, listing[..n + 1]) ==
      if found.Some? then Imports(dir, listing[..n]) + [found.value] else Imports(dir, listing[..n])
  {
    assert listing[..n + 1][..n] == listing[..n];
    assert Imports(dir, listing[..n + 1]) == Imports(dir, listing[..n]) + AsList(found);
    if found.None? {
      assert Imports(dir, listing[..n]) + [] == Imports(dir, listing[..n]);
    }
  }

  /** The last element of a list, if any. */
  function Last<T>(s: seq<T>): (r: Option<T>)
    ensures r.None? <==> s == []
    ensures r.Some? ==> r.value == s[|s| - 1]
  {
    if s == [] then None else Some(s[|s| - 1])
  }

  /** The body of the loop of `result_read_in` for one path: the isfile test and the two suffix tests. */
  method TryImport(file: string, isFile: bool) returns (r: Option<Import>)
    ensures r.Some? <==> isFile && (EndsWith(file, F50_FILE) || EndsWith(file, F20_FILE))
    ensures r.Some? ==> r.value.path == file
    ensures r == Some(F50Import(file)) <==> isFile && EndsWith(file, F50_FILE)
    ensures r == Some(F20Import(file)) <==> isFile && !EndsWith(file, F50_FILE) && EndsWith(file, F20_FILE)
    ensures r == Dispatch(file, isFile)
  {
    r := None;
    if isFile {
      if EndsWith(file, F50_FILE) {
        r := Some(F50Import(file));
      } else if EndsWith(file, F20_FILE) {
        r := Some(F20Import(file));
      }
    }
  }

  /** `result_read_in` up to the importers' own work: every listed path is tried in order and the
      result of the last import is returned. */
  method ResultReadIn(logRoot: string, analysisId: string, listing: seq<DirEntry>)
    returns (res: Option<Import>, imports: seq<Import>)
    ensures imports == Imports(CsvLogDir(logRoot, analysisId), listing)
    ensures res == Last(imports)
  {
    res := None;
    imports := [];
    var directory := logRoot + "/" + analysisId + "/emba_logs/csv_logs/";
    assert directory == CsvLogDir(logRoot, analysisId);
    var csvList := seq(|listing|, i requires 0 <= i < |listing| => Join(directory, listing[i].name));
    var n := 0;
    while n < |csvList|
      invariant 0 <= n <= |csvList|
      invariant imports == Imports(directory, listing[..n])
      invariant res == Last(imports)
    {
      var found := TryImport(csvList[n], listing[n].isFile);
      assert found == ImportOf(directory, listing[n]);
      ImportsSnoc(directory, listing, n, found);
      if found.Some? {
        res := found;
        imports := imports + [found.value];
      }
      n := n + 1;
    }
    assert listing[..n] == listing;
  }

  /** Through the log directory, the suffix test on the path is the suffix test on the listed name. */
  lemma DispatchByName(dir: string, e: DirEntry)
    requires |dir| > 0 && dir[|dir| - 1] == '/'
    requires forall j :: 0 <= j < |e.name| ==> e.name[j] != '/'
    ensures Join(dir, e.name) == dir + e.name
    ensures ImportOf(dir, e) ==
      if !e.isFile then None
      else if EndsWith(e.name, F50_FILE) then Some(F50Import(dir + e.name))
      else if EndsWith(e.name, F20_FILE) then Some(F20Import(dir + e.name))
      else None
  {
    EndsWithThroughDir(dir, e.name, F50_FILE);
    EndsWithThroughDir(dir, e.name, F20_FILE);
  }

  /** An import is made for an entry exactly when it is a file whose path has one of the two suffixes,
      and nothing else is imported. */
  lemma {:induction false} ImportsAreMatches(dir: string, listing: seq<DirEntry>, x: Import)
    ensures x in Imports(dir, listing) <==>
      exists i :: 0 <= i < |listing| && ImportOf(dir, listing[i]) == Some(x)
    decreases |listing|
  {
    if listing != [] {
      var init := listing[..|listing| - 1];
      ImportsAreMatches(dir, init, x);
      if i :| 0 <= i < |init| && ImportOf(dir, init[i]) == Some(x) {
        assert listing[i] == init[i];
      }
      if i :| 0 <= i < |listing| - 1 && ImportOf(dir, listing[i]) == Some(x) {
        assert init[i] == listing[i];
      }
    }
  }

  /** `result_read_in` returns the import of the last matching file in listing order. */
  lemma {:induction false} LastMatchWins(dir: string, listing: seq<DirEntry>, i: int)
    requires 0 <= i < |listing|
    requires ImportOf(dir, listing[i]).Some?
    requires forall j :: i < j < |listing| ==> ImportOf(dir, listing[j]).None?
    ensures Last(Imports(dir, listing)) == ImportOf(dir, listing[i])
    decreases |listing|
  {
    if i < |listing| - 1 {
      var init := listing[..|listing| - 1];
      assert init[i] == listing[i];
      LastMatchWins(dir, init, i);
      assert Imports(dir, listing) == Imports(dir, init);
    }
  }

  /** No import is made exactly when no entry is a matching file. */
  lemma ImportsEmpty(dir: string, listing: seq<DirEntry>)
    ensures Imports(dir, listing) == [] <==> forall j :: 0 <= j < |listing| ==> ImportOf(dir, listing[j]).None?
  {
    var r := Imports(dir, listing);
    if r != [] {
      ImportsAreMatches(dir, listing, r[0]);
      var i :| 0 <= i < |listing| && ImportOf(dir, listing[i]) == Some(r[0]);
    }
    if j :| 0 <= j < |listing| && ImportOf(dir, listing[j]).Some? {
      ImportsAreMatches(dir, listing, ImportOf(dir, listing[j]).value);
    }
  }
}
