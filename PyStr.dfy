/** The Python `str` and `os.path` operations that the schema reader relies on,
    restricted to the forms it calls them in: `s.split(";")`, `s.strip()`,
    `s.upper()`, `s.startswith(p)`, `sep.join(parts)` and a two-part
    `os.path.join` on POSIX. */
module PyStr {

  type String = seq<char>

  /** The characters CPython's `str.isspace` accepts, which are exactly the
      ones `str.strip()` with no argument removes. */
  predicate IsSpace(c: char) {
    c == ' ' || c == '\t' || c == '\n' || c == '\r' || c == '\U{0B}' || c == '\U{0C}'
    || ('\U{1C}' <= c <= '\U{1F}') || c == '\U{85}' || c == '\U{A0}' || c == '\U{1680}'
    || ('\U{2000}' <= c <= '\U{200A}') || c == '\U{2028}' || c == '\U{2029}'
    || c == '\U{202F}' || c == '\U{205F}' || c == '\U{3000}'
  }

  predicate AllSpace(s: String) {
    forall i :: 0 <= i < |s| ==> IsSpace(s[i])
  }

  /** Neither end of `s` is whitespace: what `strip()` leaves behind. */
  predicate IsStripped(s: String) {
    |s| == 0 || (!IsSpace(s[0]) && !IsSpace(s[|s| - 1]))
  }

  /** `m` occurs in `s` at offset `i` with only whitespace on either side. */
  predicate Surrounds(s: String, i: nat, m: String) {
    && i + |m| <= |s|
    && (forall k :: 0 <= k < |m| ==> s[i + k] == m[k])
    && (forall k :: 0 <= k < i ==> IsSpace(s[k]))
    && (forall k :: i + |m| <= k < |s| ==> IsSpace(s[k]))
  }

  /** Scanning forward from `i`, the end of the whitespace run there. */
  function SpaceRunEnd(s: String, i: nat): (e: nat)
    requires i <= |s|
    ensures i <= e <= |s|
    decreases |s| - i
  {
    if i < |s| && IsSpace(s[i]) then SpaceRunEnd(s, i + 1) else i
  }

  /** Scanning backward from `j`, the start of the whitespace run ending there. */
  function SpaceRunStart(s: String, j: nat): (b: nat)
    requires j <= |s|
    ensures b <= j
    decreases j
  {
    if j > 0 && IsSpace(s[j - 1]) then SpaceRunStart(s, j - 1) else j
  }

  /** The forward scan stops at the first non-space character, having passed
      only whitespace. */
  lemma {:induction false} SpaceRunEndSpec(s: String, i: nat)
    requires i <= |s|
    ensures forall k :: i <= k < SpaceRunEnd(s, i) ==> IsSpace(s[k])
    ensures SpaceRunEnd(s, i) < |s| ==> !IsSpace(s[SpaceRunEnd(s, i)])
    decreases |s| - i
  {
    if i < |s| && IsSpace(s[i]) {
      SpaceRunEndSpec(s, i + 1);
    }
  }

  /** The backward scan stops after the last non-space character, having
      passed only whitespace. */
  lemma {:induction false} SpaceRunStartSpec(s: String, j: nat)
    requires j <= |s|
    ensures forall k :: SpaceRunStart(s, j) <= k < j ==> IsSpace(s[k])
    ensures SpaceRunStart(s, j) > 0 ==> !IsSpace(s[SpaceRunStart(s, j) - 1])
    decreases j
  {
    if j > 0 && IsSpace(s[j - 1]) {
      SpaceRunStartSpec(s, j - 1);
    }
  }

  /** Python's `s.strip()`: the part between the leading and the trailing
      whitespace runs, or nothing when `s` is all whitespace. */
  function Strip(s: String): (r: String)
    ensures |r| <= |s|
  {
    var i := SpaceRunEnd(s, 0);
    if i == |s| then []
    else
      var j := SpaceRunStart(s, |s|);
      SpaceRunEndSpec(s, 0);
      SpaceRunStartSpec(s, |s|);
      assert i < j;
      s[i..j]
  }

  /** What `strip()` leaves has no whitespace at either end, and it is
      `s` with only whitespace removed before and after it. */
  lemma StripSpec(s: String)
    ensures IsStripped(Strip(s))
    ensures Surrounds(s, SpaceRunEnd(s, 0), Strip(s))
  {
    SpaceRunEndSpec(s, 0);
    SpaceRunStartSpec(s, |s|);
  }

  /** A whitespace run ends at the first non-space character after it. */
  lemma SpaceRunEndAt(s: String, i: nat, e: nat)
    requires i <= e <= |s|
    requires forall k :: i <= k < e ==> IsSpace(s[k])
    requires e < |s| ==> !IsSpace(s[e])
    ensures SpaceRunEnd(s, i) == e
    decreases e - i
  {
    if i < e {
      SpaceRunEndAt(s, i + 1, e);
    }
  }

  lemma SpaceRunStartAt(s: String, j: nat, b: nat)
    requires b <= j <= |s|
    requires forall k :: b <= k < j ==> IsSpace(s[k])
    requires b > 0 ==> !IsSpace(s[b - 1])
    ensures SpaceRunStart(s, j) == b
    decreases j - b
  {
    if b < j {
      SpaceRunStartAt(s, j - 1, b);
    }
  }

  /** `strip()` is determined by the decomposition: whatever whitespace
      surrounds a stripped middle part, stripping yields that middle part. */
  lemma StripUnique(l: String, m: String, t: String)
    requires AllSpace(l) && AllSpace(t) && IsStripped(m)
    ensures Strip(l + m + t) == m
  {
    var s := l + m + t;
    assert forall k :: 0 <= k < |l| ==> s[k] == l[k];
    assert forall k :: 0 <= k < |m| ==> s[|l| + k] == m[k];
    assert forall k :: |l| + |m| <= k < |s| ==> s[k] == t[k - |l| - |m|];
    if |m| == 0 {
      SpaceRunEndAt(s, 0, |s|);
    } else {
      SpaceRunEndAt(s, 0, |l|);
      SpaceRunStartAt(s, |s|, |l| + |m|);
      assert s[|l|..|l| + |m|] == m;
    }
  }

  /** Stripping twice is stripping once. */
  lemma StripIdempotent(s: String)
    ensures Strip(Strip(s)) == Strip(s)
  {
    StripSpec(s);
    StripUnique([], Strip(s), []);
    assert [] + Strip(s) + [] == Strip(s);
  }

  /** Every string is its stripped form with whitespace on either side. */
  lemma StripDecompose(s: String) returns (l: String, t: String)
    ensures s == l + Strip(s) + t
    ensures AllSpace(l) && AllSpace(t) && IsStripped(Strip(s))
  {
    var i := SpaceRunEnd(s, 0);
    var m := Strip(s);
    StripSpec(s);
    var j := i + |m|;
    l, t := s[..i], s[j..];
    assert AllSpace(l) by {
      forall k | 0 <= k < |l| ensures IsSpace(l[k]) { assert l[k] == s[k]; }
    }
    assert AllSpace(t) by {
      forall k | 0 <= k < |t| ensures IsSpace(t[k]) { assert t[k] == s[j + k]; }
    }
    assert s[i..j] == m;
    assert s == l + s[i..j] + t;
  }

  /** A character in neither part is not in their concatenation. */
  lemma NotInConcat(a: String, b: String, c: char)
    requires c !in a && c !in b
    ensures c !in a + b
  {
    assert multiset(a + b)[c] == multiset(a)[c] + multiset(b)[c];
  }

  /** Text that is already stripped strips to itself. */
  lemma StripStripped(s: String)
    requires IsStripped(s)
    ensures Strip(s) == s
  {
    StripUnique([], s, []);
    assert [] + s + [] == s;
  }

  /** Stripping only removes characters. */
  lemma StripInside(s: String)
    ensures forall c :: c in Strip(s) ==> c in s
  {
    var l, t := StripDecompose(s);
    assert multiset(s) == multiset(l) + multiset(Strip(s)) + multiset(t);
  }

  /** Whitespace followed by whitespace is whitespace. */
  lemma AllSpaceConcat(a: String, b: String)
    requires AllSpace(a) && AllSpace(b)
    ensures AllSpace(a + b)
  {
    forall k | 0 <= k < |a + b| ensures IsSpace((a + b)[k]) {
      if k < |a| { assert (a + b)[k] == a[k]; } else { assert (a + b)[k] == b[k - |a|]; }
    }
  }

  /** Whitespace put in front of a string does not change what `strip()` yields. */
  lemma StripAfterSpace(w: String, s: String)
    requires AllSpace(w)
    ensures Strip(w + s) == Strip(s)
  {
    var m := Strip(s);
    var l, t := StripDecompose(s);
    assert w + s == (w + l) + m + t;
    AllSpaceConcat(w, l);
    StripUnique(w + l, m, t);
  }

  /** Python's `upper()` on one character, for ASCII letters. */
  function UpperChar(c: char): char {
    if 'a' <= c <= 'z' then (c as int - 32) as char else c
  }

  /** Python's `s.upper()`, restricted to ASCII case mapping. */
  function Upper(s: String): (r: String)
    ensures |r| == |s|
  {
    seq(|s|, i requires 0 <= i < |s| => UpperChar(s[i]))
  }

  /** Upper-casing leaves no lower-case ASCII letter and keeps every other character. */
  lemma UpperCharFacts(c: char)
    ensures !('a' <= UpperChar(c) <= 'z')
    ensures !('a' <= c <= 'z') ==> UpperChar(c) == c
    ensures IsSpace(UpperChar(c)) == IsSpace(c)
  {
  }

  /** Upper-casing works character by character, so it distributes over `+`. */
  lemma UpperConcat(a: String, b: String)
    ensures Upper(a + b) == Upper(a) + Upper(b)
  {
    var u, v := Upper(a + b), Upper(a) + Upper(b);
    assert |u| == |v|;
    forall k | 0 <= k < |u| ensures u[k] == v[k] {
      if k < |a| { assert (a + b)[k] == a[k]; } else { assert (a + b)[k] == b[k - |a|]; }
    }
  }

  /** Upper-casing leaves whitespace as it is. */
  lemma UpperSpace(w: String)
    requires AllSpace(w)
    ensures Upper(w) == w
  {
    forall i | 0 <= i < |w| ensures Upper(w)[i] == w[i] { UpperCharFacts(w[i]); }
  }

  /** `s.upper().strip()` and `s.strip().upper()` agree: case mapping never
      turns whitespace into non-whitespace or back. */
  lemma UpperStrip(s: String)
    ensures Strip(Upper(s)) == Upper(Strip(s))
  {
    var m := Strip(s);
    var l, t := StripDecompose(s);
    UpperConcat(l, m);
    UpperConcat(l + m, t);
    assert Upper(s) == Upper(l) + Upper(m) + Upper(t);
    assert AllSpace(Upper(l)) by {
      forall k | 0 <= k < |l| ensures IsSpace(Upper(l)[k]) { UpperCharFacts(l[k]); }
    }
    assert AllSpace(Upper(t)) by {
      forall k | 0 <= k < |t| ensures IsSpace(Upper(t)[k]) { UpperCharFacts(t[k]); }
    }
    assert IsStripped(Upper(m)) by {
      if |m| > 0 { UpperCharFacts(m[0]); UpperCharFacts(m[|m| - 1]); }
    }
    StripUnique(Upper(l), Upper(m), Upper(t));
  }

  predicate StartsWith(s: String, prefix: String) {
    |prefix| <= |s| && s[..|prefix|] == prefix
  }

  predicate EndsWith(s: String, suffix: String) {
    |suffix| <= |s| && s[|s| - |suffix|..] == suffix
  }

  /** A concatenation starts with its first part. */
  lemma StartsWithConcat(a: String, b: String)
    ensures StartsWith(a + b, a)
  {
    assert (a + b)[..|a|] == a;
  }

  /** Python's `sep.join(parts)`: the parts with `sep` between neighbours,
      and the empty string for no parts. */
  function Join(parts: seq<String>, sep: String): String
    decreases |parts|
  {
    if |parts| == 0 then []
    else if |parts| == 1 then parts[0]
    else parts[0] + sep + Join(parts[1..], sep)
  }

  /** A join is at least as long as its first part. */
  lemma JoinNonEmpty(parts: seq<String>, sep: String)
    requires |parts| > 0
    ensures |Join(parts, sep)| >= |parts[0]|
  {
  }

  /** Position of the first `c` in `s`. */
  function IndexOf(s: String, c: char): (i: nat)
    requires c in s
    ensures i < |s| && s[i] == c
    ensures forall k :: 0 <= k < i ==> s[k] != c
    decreases |s|
  {
    if s[0] == c then 0 else 1 + IndexOf(s[1..], c)
  }

  /** Python's `s.split(sep)` for a one-character separator: consecutive
      separators give empty pieces, and there is always one piece more than
      there are separators. Joining the pieces back gives `s`. */
  function Split(s: String, sep: char): (r: seq<String>)
    ensures |r| == multiset(s)[sep] + 1
    ensures forall k :: 0 <= k < |r| ==> sep !in r[k]
    ensures Join(r, [sep]) == s
    decreases |s|
  {
    if sep !in s then [s]
    else
      var i := IndexOf(s, sep);
      var rest := Split(s[i + 1..], sep);
      assert s == s[..i] + [sep] + s[i + 1..];
      assert ([s[..i]] + rest)[1..] == rest;
      [s[..i]] + rest
  }

  /** `split` inverts `join`: any non-empty list of separator-free pieces is
      exactly what splitting their join gives back. */
  lemma {:induction false} SplitJoin(parts: seq<String>, sep: char)
    requires |parts| > 0
    requires forall k :: 0 <= k < |parts| ==> sep !in parts[k]
    ensures Split(Join(parts, [sep]), sep) == parts
    decreases |parts|
  {
    if |parts| == 1 {
      assert Join(parts, [sep]) == parts[0];
    } else {
      var tail := Join(parts[1..], [sep]);
      assert Join(parts, [sep]) == parts[0] + [sep] + tail;
      SplitFirst(parts[0], sep, tail);
      SplitJoin(parts[1..], sep);
      assert parts == [parts[0]] + parts[1..];
    }
  }

  /** A separator-free first piece, then the separator, splits off as the
      first piece. */
  lemma SplitFirst(head: String, sep: char, tail: String)
    requires sep !in head
    ensures Split(head + [sep] + tail, sep) == [head] + Split(tail, sep)
  {
    var s := head + [sep] + tail;
    var i := IndexOf(s, sep);
    assert s[|head|] == sep;
    assert forall k :: 0 <= k < |head| ==> s[k] == head[k];
    assert i == |head|;
    assert s[..i] == head;
    assert s[i + 1..] == tail;
  }


  /** The first part, then every later part with `w` in front of it. */
  function PrefixTail(parts: seq<String>, w: String): (r: seq<String>)
    requires |parts| > 0
    ensures |r| == |parts| && r[0] == parts[0]
    ensures forall i :: 0 < i < |parts| ==> r[i] == w + parts[i]
  {
    [parts[0]] + seq(|parts| - 1, i requires 0 <= i < |parts| - 1 => w + parts[i + 1])
  }

  /** A character in neither `w` nor any part is in no part of `PrefixTail`. */
  lemma PrefixTailAvoids(parts: seq<String>, w: String, c: char)
    requires |parts| > 0 && c !in w
    requires forall k :: 0 <= k < |parts| ==> c !in parts[k]
    ensures forall j :: 0 <= j < |parts| ==> c !in PrefixTail(parts, w)[j]
  {
    var r := PrefixTail(parts, w);
    forall j | 0 < j < |parts| ensures c !in r[j] {
      assert r[j] == w + parts[j];
      assert multiset(r[j])[c] == multiset(w)[c] + multiset(parts[j])[c];
    }
  }

  /** Text put in front of a join lands in front of its first part. */
  lemma JoinPrependFirst(w: String, parts: seq<String>, sep: String)
    requires |parts| > 0
    ensures w + Join(parts, sep) == Join([w + parts[0]] + parts[1..], sep)
  {
    var q := [w + parts[0]] + parts[1..];
    assert q[1..] == parts[1..];
    if |parts| > 1 {
      assert w + (parts[0] + sep + Join(parts[1..], sep)) == (w + parts[0]) + sep + Join(parts[1..], sep);
    }
  }

  /** Joining with `c` followed by `w` is joining with `c` alone after
      putting `w` in front of every part but the first. */
  lemma {:induction false} JoinShift(parts: seq<String>, c: char, w: String)
    requires |parts| > 0
    ensures Join(parts, [c] + w) == Join(PrefixTail(parts, w), [c])
    decreases |parts|
  {
    if |parts| > 1 {
      var rest := parts[1..];
      var x := PrefixTail(rest, w);
      var r := PrefixTail(parts, w);
      JoinShift(rest, c, w);
      JoinPrependFirst(w, x, [c]);
      assert [w + x[0]] + x[1..] == r[1..];
      calc {
        Join(parts, [c] + w);
        parts[0] + ([c] + w) + Join(rest, [c] + w);
        parts[0] + [c] + (w + Join(x, [c]));
        parts[0] + [c] + Join(r[1..], [c]);
        Join(r, [c]);
      }
    }
  }

  /** POSIX `os.path.join(a, b)`: an absolute `b` replaces `a`; otherwise a
      `/` is put between them unless `a` is empty or already ends in `/`. */
  function PathJoin(a: String, b: String): (p: String)
    ensures EndsWith(p, b)
    ensures StartsWith(b, "/") ==> p == b
    ensures !StartsWith(b, "/") ==> StartsWith(p, a) && |a| + |b| <= |p| <= |a| + |b| + 1
    ensures !StartsWith(b, "/") && |p| == |a| + |b| + 1 ==> p[|a|] == '/'
    ensures !StartsWith(b, "/") && (a == [] || EndsWith(a, "/")) ==> p == a + b
    ensures !StartsWith(b, "/") && a != [] && !EndsWith(a, "/") ==> p == a + "/" + b
  {
    if StartsWith(b, "/") then b
    else if a == [] || EndsWith(a, "/") then a + b
    else a + "/" + b
  }

  /** The index of the last `/` in `p`, or -1 when there is none. */
  function LastSlash(p: String): (i: int)
    ensures -1 <= i < |p|
    ensures i >= 0 ==> p[i] == '/'
    ensures forall k :: i < k < |p| ==> p[k] != '/'
    decreases |p|
  {
    if |p| == 0 then -1
    else if p[|p| - 1] == '/' then |p| - 1
    else LastSlash(p[..|p| - 1])
  }

  /** POSIX `os.path.basename`: what follows the last `/`. */
  function BaseName(p: String): (b: String)
    ensures '/' !in b
    ensures p == Directory(p) + b
  {
    var i := LastSlash(p) + 1;
    assert forall k :: 0 <= k < |p[i..]| ==> p[i..][k] == p[i + k];
    assert p == p[..i] + p[i..];
    p[i..]
  }

  /** What `BaseName` drops: everything up to and including the last `/`. */
  function Directory(p: String): (d: String)
    ensures d == [] || d[|d| - 1] == '/'
  {
    p[..LastSlash(p) + 1]
  }

  /** Behind a directory ending in `/`, a name without `/` is the base name. */
  lemma SplitPath(d: String, x: String)
    requires |d| > 0 && d[|d| - 1] == '/'
    requires '/' !in x
    ensures Directory(d + x) == d
    ensures BaseName(d + x) == x
  {
    var p := d + x;
    assert p[|d| - 1] == '/';
    assert forall k :: |d| <= k < |p| ==> p[k] == x[k - |d|];
    assert p[..|d|] == d;
  }

  /** Joining a relative path onto `a` and then appending more text is the
      same as joining the longer relative path. */
  lemma PathJoinAppend(a: String, u: String, v: String)
    requires |u| > 0 && u[0] != '/'
    ensures PathJoin(a, u + v) == PathJoin(a, u) + v
  {
    assert (u + v)[0] == u[0];
  }

  /** Joining `dir + x` onto `a`, for a relative `dir` ending in `/` and a
      name `x` without `/`, puts `x` in the directory `PathJoin(a, dir)`. */
  lemma PathJoinFile(a: String, dir: String, x: String)
    requires |dir| > 0 && dir[0] != '/' && dir[|dir| - 1] == '/'
    requires '/' !in x
    ensures Directory(PathJoin(a, dir + x)) == PathJoin(a, dir)
    ensures BaseName(PathJoin(a, dir + x)) == x
  {
    PathJoinAppend(a, dir, x);
    var d := PathJoin(a, dir);
    assert d[|d| - 1] == d[|d| - |dir|..][|dir| - 1];
    SplitPath(d, x);
  }
}
