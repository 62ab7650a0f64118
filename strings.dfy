/** String helpers shared by the importer and the archiver: suffix tests and POSIX path joining. */
module Strings {

  /** Python's `str.endswith`: `suffix` is a (case-sensitive) suffix of `s`. */
  predicate EndsWith(s: string, suffix: string)
  {
    |suffix| <= |s| && s[|s| - |suffix|..] == suffix
  }

  /** Python's `os.path.join(a, b)` on POSIX for two components. */
  function Join(a: string, b: string): (r: string)
    ensures |b| > 0 && b[0] == '/' ==> r == b
    ensures (|b| == 0 || b[0] != '/') ==> EndsWith(r, b) && |r| >= |a| && r[..|a|] == a
    ensures (|b| == 0 || b[0] != '/') && (a == [] || a[|a| - 1] == '/') ==> r == a + b
    ensures (|b| == 0 || b[0] != '/') && a != [] && a[|a| - 1] != '/' ==> r == a + "/" + b
  {
    if |b| > 0 && b[0] == '/' then b
    else if a == [] || a[|a| - 1] == '/' then a + b
    else a + "/" + b
  }

  /** A relative name joined to a directory without a trailing '/' gets one '/' in between. */
  lemma JoinRelative(a: string, b: string)
    requires |a| > 0 && a[|a| - 1] != '/'
    requires b == [] || b[0] != '/'
    ensures Join(a, b) == a + "/" + b
  {
  }

  /** A name without '/' does not start with one. */
  lemma NoSlashRelative(name: string)
    requires '/' !in name
    ensures name == [] || name[0] != '/'
  {
    if name != [] {
      assert name[0] in name;
    }
  }

  /** Index just after the last '/' in `s`, or 0 when there is none. */
  function TailStart(s: string): (i: nat)
    ensures i <= |s|
    ensures i > 0 ==> s[i - 1] == '/'
    ensures forall j :: i <= j < |s| ==> s[j] != '/'
  {
    if s == [] then 0
    else if s[|s| - 1] == '/' then |s|
    else TailStart(s[..|s| - 1])
  }

  /** Python's `os.path.split(s)[-1]` on POSIX: everything after the last '/'. */
  function Tail(s: string): (r: string)
    ensures EndsWith(s, r)
    ensures forall j :: 0 <= j < |r| ==> r[j] != '/'
    ensures '/' !in r
    ensures |r| < |s| ==> s[|s| - |r| - 1] == '/'
  {
    s[TailStart(s)..]
  }

  /** A suffix test through a directory prefix: when `dir` ends in '/' and the suffix holds no '/',
      the path `dir + name` ends with the suffix exactly when the name itself does. */
  lemma EndsWithThroughDir(dir: string, name: string, suffix: string)
    requires |dir| > 0 && dir[|dir| - 1] == '/'
    requires forall j :: 0 <= j < |suffix| ==> suffix[j] != '/'
    ensures EndsWith(dir + name, suffix) <==> EndsWith(name, suffix)
  {
    var p := dir + name;
    if |suffix| > |name| && |suffix| <= |p| {
      var k := |suffix| - |name| - 1;
      assert p[|p| - |suffix|..][k] == '/' != suffix[k];
    }
    if EndsWith(p, suffix) {
      assert name[|name| - |suffix|..] == p[|p| - |suffix|..];
    }
    if EndsWith(name, suffix) {
      assert p[|p| - |suffix|..] == name[|name| - |suffix|..];
    }
  }

  /** A name without '/' is its own last component. */
  lemma NoSlashTail(name: string)
    requires forall j :: 0 <= j < |name| ==> name[j] != '/'
    ensures Tail(name) == name
  {
  }

  /** The last component of a path under a directory is the name it was joined with. */
  lemma {:induction false} TailUnderDir(dir: string, name: string)
    requires |dir| > 0 && dir[|dir| - 1] == '/'
    requires forall j :: 0 <= j < |name| ==> name[j] != '/'
    ensures Tail(dir + name) == name
    decreases |name|
  {
    var p := dir + name;
    if name == [] {
      assert p == dir;
    } else {
      var q := name[..|name| - 1];
      assert p[..|p| - 1] == dir + q;
      TailUnderDir(dir, q);
    }
  }

  /** Components joined with '/', as `os.path.relpath` prints a relative path. */
  function JoinPath(parts: seq<string>): (r: string)
    ensures parts != [] ==> |r| >= |parts[0]| && r[..|parts[0]|] == parts[0]
  {
    if parts == [] then ""
    else if |parts| == 1 then parts[0]
    else parts[0] + "/" + JoinPath(parts[1..])
  }

  /** Joining one more name to a relative path made of components appends it as a component. */
  lemma {:induction false} JoinPathSnoc(parts: seq<string>, name: string)
    requires parts != [] && forall i :: 0 <= i < |parts| ==> parts[i] != [] && parts[i][|parts[i]| - 1] != '/'
    requires name == [] || name[0] != '/'
    ensures Join(JoinPath(parts), name) == JoinPath(parts + [name])
    decreases |parts|
  {
    JoinPathLast(parts);
    JoinRelative(JoinPath(parts), name);
    var longer := parts + [name];
    if |parts| == 1 {
      assert longer[1..] == [name];
      assert JoinPath(longer) == parts[0] + "/" + name;
    } else {
      var rest := parts[1..];
      assert longer[0] == parts[0] && longer[1..] == rest + [name];
      JoinPathSnoc(rest, name);
      JoinPathLast(rest);
      JoinRelative(JoinPath(rest), name);
      var head, tail := parts[0] + "/", JoinPath(rest);
      assert JoinPath(longer) == head + (tail + "/" + name);
      assert JoinPath(parts) == head + tail;
      ConcatAssoc(head, tail, "/" + name);
      ConcatAssoc(tail, "/", name);
      ConcatAssoc(head + tail, "/", name);
    }
  }

  /** String concatenation is associative. */
  lemma ConcatAssoc(a: string, b: string, c: string)
    ensures (a + b) + c == a + (b + c)
  {
  }

  /** Joining the paths of two non-empty lists of components joins the lists. */
  lemma {:induction false} JoinPathConcat(a: seq<string>, b: seq<string>)
    requires a != [] && b != []
    ensures JoinPath(a + b) == JoinPath(a) + "/" + JoinPath(b)
    decreases |a|
  {
    var ab := a + b;
    assert ab[0] == a[0];
    if |a| == 1 {
      assert ab[1..] == b;
    } else {
      assert ab[1..] == a[1..] + b;
      JoinPathConcat(a[1..], b);
      var head, mid := a[0] + "/", JoinPath(a[1..]);
      assert JoinPath(ab) == head + (mid + "/" + JoinPath(b));
      assert JoinPath(a) == head + mid;
      ConcatAssoc(head, mid, "/" + JoinPath(b));
      ConcatAssoc(mid, "/", JoinPath(b));
      ConcatAssoc(head + mid, "/", JoinPath(b));
    }
  }

  /** A path made of components without a trailing '/' does not end in '/'. */
  lemma {:induction false} JoinPathLast(parts: seq<string>)
    requires parts != [] && forall i :: 0 <= i < |parts| ==> parts[i] != [] && parts[i][|parts[i]| - 1] != '/'
    ensures var p := JoinPath(parts); p != [] && p[|p| - 1] == parts[|parts| - 1][|parts[|parts| - 1]| - 1]
    decreases |parts|
  {
    if |parts| > 1 {
      JoinPathLast(parts[1..]);
    }
  }
}
