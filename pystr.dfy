/**
  The parts of Python's `str` that the monitor relies on, with Python's meaning:
  `isspace`, `strip()`, ASCII `lower()`, `startswith`, `find` / `in`,
  `split(sep)` (all pieces), `split(sep, 1)` and the `<` comparison that
  `sorted` uses.
 */
module PyStr {

  /** `c.isspace()`: the characters CPython treats as whitespace. */
  predicate IsSpace(c: char) {
    || ('\t' <= c <= '\r')
    || ('\U{1C}' <= c <= '\U{1F}')
    || c == ' '
    || c == '\U{85}'
    || c == '\U{A0}'
    || c == '\U{1680}'
    || ('\U{2000}' <= c <= '\U{200A}')
    || c == '\U{2028}'
    || c == '\U{2029}'
    || c == '\U{202F}'
    || c == '\U{205F}'
    || c == '\U{3000}'
  }

  predicate AllSpace(s: string) {
    forall i :: 0 <= i < |s| ==> IsSpace(s[i])
  }

  /** A string that `strip()` leaves alone: no whitespace at either end. */
  predicate IsStripped(s: string) {
    s == [] || (!IsSpace(s[0]) && !IsSpace(s[|s| - 1]))
  }

  /** Every character of `s` from index `i` up to (not including) `j` is whitespace. */
  predicate SpaceBetween(s: string, i: int, j: int)
    requires 0 <= i && j <= |s|
  {
    forall k :: i <= k < j ==> IsSpace(s[k])
  }

  /** The number of whitespace characters in `s` from index `i` on, up to
      the first other character. */
  function SpacesFrom(s: string, i: nat): (n: nat)
    requires i <= |s|
    ensures i + n <= |s|
    ensures i + n < |s| ==> !IsSpace(s[i + n])
    decreases |s| - i
  {
    if i < |s| && IsSpace(s[i]) then 1 + SpacesFrom(s, i + 1) else 0
  }

  /** What `SpacesFrom` skips is whitespace. */
  lemma {:induction false} SpacesFromAreSpaces(s: string, i: nat)
    requires i <= |s|
    ensures SpaceBetween(s, i, i + SpacesFrom(s, i))
    decreases |s| - i
  {
    if i < |s| && IsSpace(s[i]) {
      SpacesFromAreSpaces(s, i + 1);
    }
  }

  /** The number of whitespace characters in `s` just before index `j`. */
  function SpacesBefore(s: string, j: nat): (n: nat)
    requires j <= |s|
    ensures n <= j
    ensures n < j ==> !IsSpace(s[j - 1 - n])
  {
    if j > 0 && IsSpace(s[j - 1]) then 1 + SpacesBefore(s, j - 1) else 0
  }

  /** What `SpacesBefore` skips is whitespace. */
  lemma {:induction false} SpacesBeforeAreSpaces(s: string, j: nat)
    requires j <= |s|
    ensures SpaceBetween(s, j - SpacesBefore(s, j), j)
  {
    if j > 0 && IsSpace(s[j - 1]) {
      SpacesBeforeAreSpaces(s, j - 1);
    }
  }

  /** The number of whitespace characters at the start of `s`. */
  function LeadingSpaces(s: string): (n: nat)
    ensures n <= |s|
    ensures n < |s| ==> !IsSpace(s[n])
  {
    SpacesFrom(s, 0)
  }

  /** `s.strip()`: `s` without its leading and trailing whitespace. */
  function Strip(s: string): (r: string)
    ensures |r| <= |s|
    ensures IsStripped(r)
  {
    var lead := LeadingSpaces(s);
    if lead == |s| then []
    else
      var trail := SpacesBefore(s, |s|);
      SpacesBeforeAreSpaces(s, |s|);
      assert !IsSpace(s[lead]);
      s[lead..|s| - trail]
  }

  /** What `strip()` returns is the slice of `s` that starts at
      `LeadingSpaces(s)`, and everything it cuts off is whitespace. */
  lemma StripSlice(s: string)
    ensures LeadingSpaces(s) + |Strip(s)| <= |s|
    ensures Strip(s) == s[LeadingSpaces(s)..LeadingSpaces(s) + |Strip(s)|]
    ensures SpaceBetween(s, 0, LeadingSpaces(s))
    ensures SpaceBetween(s, LeadingSpaces(s) + |Strip(s)|, |s|)
  {
    SpacesFromAreSpaces(s, 0);
    SpacesBeforeAreSpaces(s, |s|);
  }

  /** The characterisation that pins `strip()` down: a stripped slice of `x`
      with only whitespace around it is what `Strip(x)` returns. */
  lemma StripUnique(x: string, i: nat, r: string)
    requires i + |r| <= |x| && r == x[i..i + |r|]
    requires IsStripped(r)
    requires SpaceBetween(x, 0, i) && SpaceBetween(x, i + |r|, |x|)
    ensures Strip(x) == r
  {
    var q := Strip(x);
    var lead := LeadingSpaces(x);
    StripSlice(x);
    assert r != [] ==> r[0] == x[i] && r[|r| - 1] == x[i + |r| - 1];
    assert q != [] ==> q[0] == x[lead] && q[|q| - 1] == x[lead + |q| - 1];
  }

  /** A string without whitespace at its ends is its own `strip()`. */
  lemma StripStripped(s: string)
    requires IsStripped(s)
    ensures Strip(s) == s
  {
    assert s[0..|s|] == s;
    StripUnique(s, 0, s);
  }

  /** `strip()` ignores whitespace added around its argument. */
  lemma StripPadded(a: string, s: string, b: string)
    requires AllSpace(a) && AllSpace(b)
    ensures Strip(a + s + b) == Strip(s)
  {
    var x := a + s + b;
    var r := Strip(s);
    var lead := LeadingSpaces(s);
    var i := |a| + lead;
    StripSlice(s);
    assert x[i..i + |r|] == s[lead..lead + |r|];
    forall k | 0 <= k < i ensures IsSpace(x[k]) {
      if k < |a| { assert x[k] == a[k]; } else { assert x[k] == s[k - |a|]; }
    }
    forall k | i + |r| <= k < |x| ensures IsSpace(x[k]) {
      if k < |a| + |s| { assert x[k] == s[k - |a|]; } else { assert x[k] == b[k - |a| - |s|]; }
    }
    StripUnique(x, i, r);
  }

  /** `c.lower()` on ASCII letters; other characters are kept. */
  function LowerChar(c: char): char {
    if 'A' <= c <= 'Z' then (c as int + 32) as char else c
  }

  /** `s.lower()`, character by character. */
  function Lower(s: string): (r: string)
    ensures |r| == |s|
  {
    seq(|s|, i requires 0 <= i < |s| => LowerChar(s[i]))
  }

  predicate StartsWith(s: string, prefix: string) {
    |prefix| <= |s| && s[..|prefix|] == prefix
  }

  /** `p` occurs in `s` at position `i`. */
  predicate OccursAt(s: string, p: string, i: int) {
    0 <= i && i + |p| <= |s| && s[i..i + |p|] == p
  }

  /** `s.find(p, k)`: the first position at or after `k` where `p` occurs, or -1. */
  function FindFrom(s: string, p: string, k: nat): (r: int)
    requires k <= |s|
    ensures r == -1 || (k <= r && OccursAt(s, p, r))
    decreases |s| - k
  {
    if k + |p| > |s| then -1
    else if s[k..k + |p|] == p then k
    else FindFrom(s, p, k + 1)
  }

  /** `FindFrom` skips no occurrence. */
  lemma {:induction false} FindFromFirst(s: string, p: string, k: nat)
    requires k <= |s|
    ensures FindFrom(s, p, k) == -1 ==> forall j :: k <= j ==> !OccursAt(s, p, j)
    ensures forall j :: k <= j < FindFrom(s, p, k) ==> !OccursAt(s, p, j)
    decreases |s| - k
  {
    if k + |p| <= |s| && s[k..k + |p|] != p {
      FindFromFirst(s, p, k + 1);
    }
  }

  /** `s.find(p)`: the first position where `p` occurs in `s`, or -1. */
  function Find(s: string, p: string): (r: int)
    ensures r == -1 || OccursAt(s, p, r)
  {
    FindFrom(s, p, 0)
  }

  /** `find` gives -1 exactly when `p` does not occur, and otherwise the
      first occurrence. */
  lemma FindFirst(s: string, p: string)
    ensures Find(s, p) == -1 <==> forall j :: !OccursAt(s, p, j)
    ensures forall j :: 0 <= j < Find(s, p) ==> !OccursAt(s, p, j)
  {
    FindFromFirst(s, p, 0);
  }

  /** `p in s`. */
  predicate Contains(s: string, p: string) {
    Find(s, p) >= 0
  }

  /** When the first `|a|` characters of `p` placed after `a` are the first place
      `p` fits, `find` stops exactly there. */
  lemma FindAtJoin(a: string, p: string, b: string)
    requires |p| > 0
    requires !Contains(a + p[..|p| - 1], p)
    ensures Find(a + p + b, p) == |a|
  {
    var s := a + p + b;
    var t := a + p[..|p| - 1];
    FindFirst(t, p);
    FindFirst(s, p);
    assert s[|a|..|a| + |p|] == p;
    assert OccursAt(s, p, |a|);
    assert s[..|t|] == t;
    forall j | 0 <= j < |a| ensures !OccursAt(s, p, j) {
      assert j + |p| <= |t|;
      assert s[j..j + |p|] == s[..|t|][j..j + |p|];
      assert !OccursAt(t, p, j);
    }
  }

  /** A string that has no `p` keeps none after a character `p` cannot start with. */
  lemma ConsNoOccurrence(c: char, t: string, p: string)
    requires |p| > 0 && c != p[0]
    requires !Contains(t, p)
    ensures !Contains([c] + t, p)
  {
    var s := [c] + t;
    FindFirst(t, p);
    FindFirst(s, p);
    forall j ensures !OccursAt(s, p, j) {
      if 1 <= j && j + |p| <= |s| {
        assert s[j..j + |p|] == t[j - 1..j - 1 + |p|];
        assert !OccursAt(t, p, j - 1);
      } else if j == 0 && |p| <= |s| {
        assert s[j..j + |p|][0] == c;
      }
    }
  }

  lemma SliceOfSlice(s: string, i: nat, j: nat, k: nat, m: nat)
    requires i <= j <= |s|
    requires k + m <= j - i
    ensures s[i..j][k..k + m] == s[i + k..i + k + m]
  {
    var t := s[i..j];
    var u := s[i + k..i + k + m];
    forall n | 0 <= n < m ensures t[k..k + m][n] == u[n] {
      assert t[k..k + m][n] == t[k + n] == s[i + k + n] == u[n];
    }
  }

  /** A slice of a string without `p` has no `p` either. */
  lemma SliceNoOccurrence(s: string, p: string, i: nat, j: nat)
    requires i <= j <= |s|
    requires !Contains(s, p)
    ensures !Contains(s[i..j], p)
  {
    var t := s[i..j];
    FindFirst(s, p);
    FindFirst(t, p);
    forall k ensures !OccursAt(t, p, k) {
      if 0 <= k && k + |p| <= |t| {
        SliceOfSlice(s, i, j, k, |p|);
        assert !OccursAt(s, p, i + k);
      }
    }
  }

  /** Stripping a string without `p` leaves none. */
  lemma StripNoOccurrence(s: string, p: string)
    requires !Contains(s, p)
    ensures !Contains(Strip(s), p)
  {
    var lead := LeadingSpaces(s);
    StripSlice(s);
    SliceNoOccurrence(s, p, lead, lead + |Strip(s)|);
  }

  /** `p` cannot restart right after one of its own spaces, and does not end in one. */
  predicate NoRestartAfterSpace(p: string) {
    && |p| >= 2
    && p[|p| - 1] != ' '
    && forall k :: 0 <= k < |p| - 1 && p[k] == ' ' ==> p[k + 1] != p[0]
  }

  /** For such a `p`, writing `a + " " + p` makes the written `p` its first
      occurrence, provided `a` holds none. */
  lemma NoStraddle(a: string, p: string)
    requires NoRestartAfterSpace(p)
    requires !Contains(a, p)
    ensures !Contains(a + " " + p[..|p| - 1], p)
  {
    var t := a + " " + p[..|p| - 1];
    assert |t| == |a| + |p|;
    FindFirst(a, p);
    FindFirst(t, p);
    forall j ensures !OccursAt(t, p, j) {
      if 0 <= j && j + |p| <= |t| {
        var w := t[j..j + |p|];
        if j + |p| <= |a| {
          assert w == a[j..j + |p|];
          assert !OccursAt(a, p, j);
        } else {
          var k := |a| - j;
          assert w[k] == t[|a|] == ' ';
          if p[k] == ' ' {
            assert w[k + 1] == t[|a| + 1] == p[0];
          }
        }
      }
    }
  }

  /** For such a `p`, the first `p` in `a + " " + p + " " + b` is the one
      written after `a`, when `a` holds none; the text around it is `a + " "`
      and `" " + b`. */
  lemma FindSpaced(a: string, p: string, b: string)
    requires NoRestartAfterSpace(p)
    requires !Contains(a, p)
    ensures Find(a + " " + p + " " + b, p) == |a| + 1
    ensures (a + " " + p + " " + b)[..|a| + 1] == a + " "
    ensures (a + " " + p + " " + b)[|a| + 1 + |p|..] == " " + b
  {
    NoStraddle(a, p);
    assert a + " " + p + " " + b == (a + " ") + p + (" " + b);
    FindAtJoin(a + " ", p, " " + b);
  }

  /** `s.split(sep)`: every piece, cut at each leftmost, non-overlapping `sep`.
      There is a single piece exactly when `sep` is not in `s`. */
  function Split(s: string, sep: string): (parts: seq<string>)
    requires |sep| > 0
    ensures |parts| >= 1
    ensures |parts| == 1 <==> !Contains(s, sep)
    decreases |s|
  {
    var i := Find(s, sep);
    if i < 0 then [s]
    else [s[..i]] + Split(s[i + |sep|..], sep)
  }

  /** Joining the pieces of a split with the separator gives the string back. */
  lemma {:induction false} SplitJoin(s: string, sep: string)
    requires |sep| > 0
    ensures Join(Split(s, sep), sep) == s
    decreases |s|
  {
    var i := Find(s, sep);
    if i >= 0 {
      var rest := Split(s[i + |sep|..], sep);
      SplitJoin(s[i + |sep|..], sep);
      JoinCons(s[..i], rest, sep);
      SplitAround(s, i, sep);
    }
  }

  /** `sep.join(parts)`. */
  function Join(parts: seq<string>, sep: string): string
    requires |parts| >= 1
  {
    if |parts| == 1 then parts[0] else parts[0] + sep + Join(parts[1..], sep)
  }

  lemma SplitAround(s: string, i: nat, sep: string)
    requires OccursAt(s, sep, i)
    ensures s == s[..i] + sep + s[i + |sep|..]
  {
    assert s == s[..i] + s[i..i + |sep|] + s[i + |sep|..];
  }

  lemma JoinCons(head: string, rest: seq<string>, sep: string)
    requires |rest| >= 1
    ensures Join([head] + rest, sep) == head + sep + Join(rest, sep)
  {
    assert ([head] + rest)[1..] == rest;
  }

  /** No piece of a split contains the separator. */
  lemma {:induction false} SplitPiecesFree(s: string, sep: string)
    requires |sep| > 0
    ensures forall k :: 0 <= k < |Split(s, sep)| ==> !Contains(Split(s, sep)[k], sep)
    decreases |s|
  {
    var i := Find(s, sep);
    if i >= 0 {
      var tail := s[i + |sep|..];
      SplitPiecesFree(tail, sep);
      var head := s[..i];
      BeforeFirstIsFree(s, sep);
      var parts := Split(s, sep);
      assert parts == [head] + Split(tail, sep);
      forall k | 0 < k < |parts| ensures !Contains(parts[k], sep) {
        assert parts[k] == Split(tail, sep)[k - 1];
      }
    }
  }

  /** The text before the first `p` holds no `p`. */
  lemma BeforeFirstIsFree(s: string, p: string)
    requires |p| > 0 && Contains(s, p)
    ensures !Contains(s[..Find(s, p)], p)
  {
    var head := s[..Find(s, p)];
    FindFirst(s, p);
    FindFirst(head, p);
    forall j ensures !OccursAt(head, p, j) {
      if 0 <= j && j + |p| <= |head| {
        assert head[j..j + |p|] == s[j..j + |p|];
        assert !OccursAt(s, p, j);
      }
    }
  }

  /** The text of `s` before the first `p`, or all of `s` when there is none. */
  function UpTo(s: string, p: string): (r: string)
    requires |p| > 0
    ensures StartsWith(s, r)
    ensures !Contains(r, p)
    ensures r == s || OccursAt(s, p, |r|)
  {
    if Contains(s, p) then
      BeforeFirstIsFree(s, p);
      s[..Find(s, p)]
    else
      s
  }

  /** The first piece of a split is the text before the first separator. */
  lemma SplitFirst(s: string, sep: string)
    requires |sep| > 0
    ensures Split(s, sep)[0] == UpTo(s, sep)
  {
  }

  /** The second piece of a split is the text between the first separator
      and the next one (or the end). */
  lemma SplitSecond(s: string, sep: string)
    requires |sep| > 0 && Contains(s, sep)
    ensures |Split(s, sep)| >= 2
    ensures Split(s, sep)[1] == UpTo(s[Find(s, sep) + |sep|..], sep)
  {
    var tail := s[Find(s, sep) + |sep|..];
    var rest := Split(tail, sep);
    assert Split(s, sep)[1..] == rest;
    SplitFirst(tail, sep);
  }

  /** A string without `sep` is its own single piece. */
  lemma SplitJoinFree(s: string, sep: string)
    requires |sep| > 0 && !Contains(s, sep)
    ensures Split(s, sep) == [s]
  {
  }

  /** A piece without a one-character `sep` followed by `sep` splits off
      as the first piece. */
  lemma SplitAfterFree(a: string, sep: string, b: string)
    requires |sep| == 1 && !Contains(a, sep)
    ensures Split(a + sep + b, sep) == [a] + Split(b, sep)
  {
    var s := a + sep + b;
    assert a + sep[..0] == a;
    FindAtJoin(a, sep, b);
    assert s[..|a|] == a;
    assert s[|a| + 1..] == b;
  }

  /** `s.split(sep, 1)`: the text before the first `sep` and everything after it. */
  function SplitOnce(s: string, sep: string): (parts: seq<string>)
    requires |sep| > 0
    ensures |parts| == 1 <==> !Contains(s, sep)
    ensures 1 <= |parts| <= 2
  {
    var i := Find(s, sep);
    if i < 0 then [s] else [s[..i], s[i + |sep|..]]
  }

  /** The two pieces of `s.split(sep, 1)`, joined by `sep`, give `s` back,
      and the first holds no `sep`. */
  lemma SplitOnceJoin(s: string, sep: string)
    requires |sep| > 0 && Contains(s, sep)
    ensures var parts := SplitOnce(s, sep);
      s == parts[0] + sep + parts[1] && !Contains(parts[0], sep)
  {
    var i := Find(s, sep);
    SplitAround(s, i, sep);
    BeforeFirstIsFree(s, sep);
  }

  /** Python's `a < b` on strings: code points compared left to right,
      a proper prefix before the longer string. */
  predicate Below(a: string, b: string)
    decreases |a|
  {
    if |a| == 0 then |b| > 0
    else if |b| == 0 then false
    else if a[0] != b[0] then a[0] < b[0]
    else Below(a[1..], b[1..])
  }

  lemma {:induction false} BelowIrreflexive(a: string)
    ensures !Below(a, a)
    decreases |a|
  {
    if |a| > 0 { BelowIrreflexive(a[1..]); }
  }

  lemma {:induction false} BelowTransitive(a: string, b: string, c: string)
    requires Below(a, b) && Below(b, c)
    ensures Below(a, c)
    decreases |a|
  {
    if |a| > 0 && |b| > 0 && |c| > 0 && a[0] == b[0] && b[0] == c[0] {
      BelowTransitive(a[1..], b[1..], c[1..]);
    }
  }

  /** Distinct strings are always ordered one way or the other. */
  lemma {:induction false} BelowTotal(a: string, b: string)
    requires a != b
    ensures Below(a, b) || Below(b, a)
    decreases |a|
  {
    if |a| > 0 && |b| > 0 && a[0] == b[0] {
      assert a == [a[0]] + a[1..] && b == [b[0]] + b[1..];
      BelowTotal(a[1..], b[1..]);
    }
  }

  /** `m` is the smallest string of `s`. */
  predicate IsLeast(m: string, s: set<string>) {
    m in s && forall x :: x in s ==> !Below(x, m)
  }

  /** Every non-empty set of strings has a least element. */
  lemma {:induction false} LeastExists(s: set<string>)
    requires s != {}
    ensures exists m :: IsLeast(m, s)
    decreases |s|
  {
    var y :| y in s;
    BelowIrreflexive(y);
    if s == {y} {
      assert IsLeast(y, s);
    } else {
      var rest := s - {y};
      LeastExists(rest);
      var m :| IsLeast(m, rest);
      if Below(y, m) {
        forall x | x in s ensures !Below(x, y) {
          if Below(x, y) { BelowTransitive(x, y, m); }
        }
        assert IsLeast(y, s);
      } else {
        assert IsLeast(m, s);
      }
    }
  }

  /** A set has one least element at most. */
  lemma LeastUnique(s: set<string>)
    ensures forall a, b :: IsLeast(a, s) && IsLeast(b, s) ==> a == b
  {
    forall a, b | IsLeast(a, s) && IsLeast(b, s) ensures a == b {
      if a != b { BelowTotal(a, b); }
    }
  }

  /** The strings of `s` in strictly increasing order. */
  predicate StrictlySorted(r: seq<string>) {
    forall i, j :: 0 <= i < j < |r| ==> Below(r[i], r[j])
  }

  /** `sorted(s)`: the strings of a set in increasing order, each once. */
  function SortedSet(s: set<string>): (r: seq<string>)
    ensures |r| == |s|
    ensures forall x :: x in r <==> x in s
    ensures StrictlySorted(r)
    decreases |s|
  {
    if s == {} then []
    else
      LeastExists(s);
      LeastUnique(s);
      var m :| IsLeast(m, s);
      var rest := SortedSet(s - {m});
      assert forall x :: x in rest ==> Below(m, x) by {
        forall x | x in rest ensures Below(m, x) { BelowTotal(m, x); }
      }
      [m] + rest
  }
}
