/** The ECMAScript string primitives the application relies on: the
    whitespace class shared by the regular-expression escape `\s` and
    `String.prototype.trim`, trimming itself, and the ASCII-only case folding
    that a non-Unicode `/i` regular expression applies. */
module Text {

  /** The ECMAScript LineTerminator code points: these are what `.` refuses to
      match when a regular expression has no `s` flag. */
  predicate IsLineTerminator(c: char) {
    c == '\n' || c == '\r' || c == '\U{2028}' || c == '\U{2029}'
  }

  /** ECMAScript WhiteSpace or LineTerminator: the set `\s` matches and `trim`
      removes (the space separators of Unicode category Zs included). */
  predicate IsSpace(c: char) {
    || IsLineTerminator(c)
    || c == '\t' || c == '\U{000B}' || c == '\U{000C}' || c == ' '
    || c == '\U{00A0}' || c == '\U{1680}'
    || ('\U{2000}' <= c <= '\U{200A}')
    || c == '\U{202F}' || c == '\U{205F}' || c == '\U{3000}' || c == '\U{FEFF}'
  }

  predicate AllSpace(s: string) {
    forall i :: 0 <= i < |s| ==> IsSpace(s[i])
  }

  predicate NoLineTerminator(s: string) {
    forall i :: 0 <= i < |s| ==> !IsLineTerminator(s[i])
  }

  /** A string that `trim` leaves as it is. */
  predicate IsTrimmed(s: string) {
    s == [] || (!IsSpace(s[0]) && !IsSpace(s[|s| - 1]))
  }

  /** The first index at or after `k` that does not hold whitespace, or `|s|`. */
  function SkipSpaces(s: string, k: nat): (n: nat)
    requires k <= |s|
    ensures k <= n <= |s|
    ensures n < |s| ==> !IsSpace(s[n])
    decreases |s| - k
  {
    if k < |s| && IsSpace(s[k]) then SkipSpaces(s, k + 1) else k
  }

  /** `SkipSpaces` is the greedy `\s*` run: everything it passes over is
      whitespace, and it stops at the first character that is not, or at the end. */
  lemma {:induction false} SkipSpacesOver(s: string, k: nat)
    requires k <= |s|
    ensures forall i :: k <= i < SkipSpaces(s, k) ==> IsSpace(s[i])
    ensures SkipSpaces(s, k) < |s| ==> !IsSpace(s[SkipSpaces(s, k)])
    decreases |s| - k
  {
    if k < |s| && IsSpace(s[k]) {
      SkipSpacesOver(s, k + 1);
    }
  }

  /** The index just past the last non-whitespace character before `k`, or 0. */
  function SkipSpacesBack(s: string, k: nat): (n: nat)
    requires k <= |s|
    ensures n <= k
    ensures 0 < n ==> !IsSpace(s[n - 1])
  {
    if 0 < k && IsSpace(s[k - 1]) then SkipSpacesBack(s, k - 1) else k
  }

  /** Everything `SkipSpacesBack` passes over is whitespace. */
  lemma {:induction false} SkipSpacesBackOver(s: string, k: nat)
    requires k <= |s|
    ensures forall i :: SkipSpacesBack(s, k) <= i < k ==> IsSpace(s[i])
  {
    if 0 < k && IsSpace(s[k - 1]) {
      SkipSpacesBackOver(s, k - 1);
    }
  }

  /** `String.prototype.trim`: drops the whitespace at both ends. */
  function Trim(s: string): (r: string)
    ensures IsTrimmed(r) && |r| <= |s|
  {
    var i := SkipSpaces(s, 0);
    var j := SkipSpacesBack(s, |s|);
    if j <= i then [] else s[i..j]
  }

  /** What `trim` returns is a slice of its argument with only whitespace
      around it. */
  lemma TrimShape(s: string)
    ensures var r, i := Trim(s), SkipSpaces(s, 0);
            i + |r| <= |s| && r == s[i..i + |r|] && AllSpace(s[..i]) && AllSpace(s[i + |r|..])
  {
    var i := SkipSpaces(s, 0);
    var j := SkipSpacesBack(s, |s|);
    SkipSpacesOver(s, 0);
    SkipSpacesBackOver(s, |s|);
    if i < j {
      assert i + (j - i) == j;
    } else {
      assert i == |s|;
    }
  }

  /** Scanning forward stops exactly at the first non-whitespace character. */
  lemma {:induction false} SkipSpacesTo(s: string, k: nat, n: nat)
    requires k <= n <= |s|
    requires forall i :: k <= i < n ==> IsSpace(s[i])
    requires n < |s| ==> !IsSpace(s[n])
    ensures SkipSpaces(s, k) == n
    decreases n - k
  {
    if k < n {
      SkipSpacesTo(s, k + 1, n);
    }
  }

  /** Scanning backward stops exactly after the last non-whitespace character. */
  lemma {:induction false} SkipSpacesBackTo(s: string, k: nat, n: nat)
    requires n <= k <= |s|
    requires forall i :: n <= i < k ==> IsSpace(s[i])
    requires 0 < n ==> !IsSpace(s[n - 1])
    ensures SkipSpacesBack(s, k) == n
    decreases k - n
  {
    if n < k {
      SkipSpacesBackTo(s, k - 1, n);
    }
  }

  /** Trimming is determined by the trimmed core: whatever whitespace surrounds
      a trimmed string, `trim` returns exactly that string. */
  lemma TrimOfPadded(a: string, r: string, b: string)
    requires AllSpace(a) && AllSpace(b) && IsTrimmed(r)
    ensures Trim(a + r + b) == r
  {
    var s := a + r + b;
    if r == [] {
      SkipSpacesTo(s, 0, |s|);
      assert s == a + b;
    } else {
      SkipSpacesTo(s, 0, |a|);
      SkipSpacesBackTo(s, |s|, |a| + |r|);
      assert s[|a|..|a| + |r|] == r;
    }
  }

  /** Leading whitespace does not change the result of `trim`. */
  lemma TrimDropsLeadingSpace(a: string, s: string)
    requires AllSpace(a)
    ensures Trim(a + s) == Trim(s)
  {
    var u, n := a + s, |a|;
    var i := SkipSpaces(s, 0);
    SkipSpacesOver(s, 0);
    forall x | 0 <= x < n + i ensures IsSpace(u[x]) {
      if x < n {
        assert u[x] == a[x];
      } else {
        assert u[x] == s[x - n];
      }
    }
    if i < |s| {
      assert u[n + i] == s[i];
    }
    SkipSpacesTo(u, 0, n + i);
    if i < |s| {
      PaddedTrimEnd(a, s, i);
    }
  }

  /** The end of `trim` once leading whitespace is known to stop at `i`. */
  lemma PaddedTrimEnd(a: string, s: string, i: nat)
    requires i < |s| && SkipSpaces(s, 0) == i && SkipSpaces(a + s, 0) == |a| + i
    ensures Trim(a + s) == Trim(s)
  {
    var j := SkipSpacesBack(s, |s|);
    SkipSpacesBackOver(s, |s|);
    assert !IsSpace(s[i]);
    assert i < j;
    PaddedBackScan(a, s);
    TrimBetween(s, i, j);
    TrimBetween(a + s, |a| + i, |a| + j);
    SliceAfterPrefix(a, s, i, j);
  }

  /** `trim` is the slice between its two scans when they do not cross. */
  lemma TrimBetween(s: string, i: nat, j: nat)
    requires i < j <= |s| && SkipSpaces(s, 0) == i && SkipSpacesBack(s, |s|) == j
    ensures Trim(s) == s[i..j]
  {
  }

  /** Leading text does not move the backward scan of a string that is not all whitespace. */
  lemma PaddedBackScan(a: string, s: string)
    requires 0 < SkipSpacesBack(s, |s|)
    ensures SkipSpacesBack(a + s, |a + s|) == |a| + SkipSpacesBack(s, |s|)
  {
    var u, n, j := a + s, |a|, SkipSpacesBack(s, |s|);
    SkipSpacesBackOver(s, |s|);
    forall x | n + j <= x < |u| ensures IsSpace(u[x]) {
      assert u[x] == s[x - n];
    }
    assert u[n + j - 1] == s[j - 1];
    SkipSpacesBackTo(u, |u|, n + j);
  }

  lemma SliceAfterPrefix(a: string, s: string, i: nat, j: nat)
    requires i <= j <= |s|
    ensures (a + s)[|a| + i..|a| + j] == s[i..j]
  {
    var u := a + s;
    forall x | 0 <= x < j - i ensures u[|a| + i..|a| + j][x] == s[i..j][x] {
      assert u[|a| + i + x] == s[i + x];
    }
  }

  /** Trimming twice changes nothing more than trimming once. */
  lemma TrimIdempotent(s: string)
    ensures Trim(Trim(s)) == Trim(s)
  {
    TrimOfPadded([], Trim(s), []);
    assert [] + Trim(s) + [] == Trim(s);
  }

  /** The case canonicalisation of a non-Unicode `/i` regular expression as it
      affects ASCII markers: only `a`..`z` fold (to upper case); a non-ASCII
      character never folds onto an ASCII one. Read from the marker's side:
      an upper-case marker letter is matched by exactly itself and its
      lower-case form, no character folds onto a lower-case letter, and every
      other marker character is matched only by itself. */
  function FoldCase(c: char): (u: char)
    ensures 'a' <= c <= 'z' ==> u != c && u as int == c as int - 32
    ensures !('a' <= c <= 'z') ==> u == c
    ensures 'A' <= u <= 'Z' ==> c == u || c as int == u as int + 32
    ensures !('a' <= u <= 'z')
    ensures !('A' <= u <= 'Z') ==> c == u
  {
    if 'a' <= c <= 'z' then (c as int - 32) as char else c
  }

  /** `marker` (written in upper case) occurs case-insensitively at position `i` of `t`. */
  predicate MatchesAt(t: string, i: nat, marker: string) {
    i + |marker| <= |t| && forall j :: 0 <= j < |marker| ==> FoldsTo(t, i, marker, j)
  }

  /** Character `j` of `marker` matches character `i + j` of `t`. */
  predicate FoldsTo(t: string, i: nat, marker: string, j: nat)
    requires i + j < |t| && j < |marker|
  {
    FoldCase(t[i + j]) == marker[j]
  }

  /** `sub` occurs in `s` verbatim at position `i`. */
  predicate OccursAt(s: string, sub: string, i: int) {
    0 <= i <= |s| - |sub| && s[i..i + |sub|] == sub
  }

  /** `sub` occurs in `s` verbatim. */
  predicate Contains(s: string, sub: string) {
    exists i :: 0 <= i <= |s| && OccursAt(s, sub, i)
  }

  predicate EndsWith(s: string, suffix: string) {
    |s| >= |suffix| && s[|s| - |suffix|..] == suffix
  }

  /** Text put in front keeps both itself at the start and the suffix at the end. */
  lemma EndsWithPrepend(a: string, u: string, suffix: string)
    requires EndsWith(u, suffix)
    ensures (a + u)[..|a|] == a && (a + u)[|a|..] == u && EndsWith(a + u, suffix)
  {
    assert (a + u)[|a + u| - |suffix|..] == u[|u| - |suffix|..];
  }

  /** Joining `a` and a non-empty `u` with a two-character separator: both
      parts can be read back at their offsets, and the suffix of `u` stays. */
  lemma JoinedParts(a: string, sep: string, u: string, suffix: string)
    requires |sep| == 2 && |suffix| > 0 && EndsWith(u, suffix)
    ensures |a + sep + u| > |a| + 2
    ensures (a + sep + u)[..|a| + 2] == a + sep
    ensures (a + sep + u)[|a| + 2..] == u
    ensures EndsWith(a + sep + u, suffix)
  {
    EndsWithPrepend(a + sep, u, suffix);
  }

  /** What a string ends with, it contains. */
  lemma ContainsEnd(a: string, x: string)
    ensures Contains(a + x, x)
  {
    assert (a + x)[|a|..|a| + |x|] == x;
    assert OccursAt(a + x, x, |a|);
  }

  /** Two parts at the end of a string are contained in it together. */
  lemma ContainsEndPair(a: string, x: string, y: string)
    ensures Contains(a + x + y, x + y)
  {
    assert a + x + y == a + (x + y);
    ContainsEnd(a, x + y);
  }

  /** Appending text keeps what a string contains. */
  lemma ContainsExtend(p: string, q: string, x: string)
    requires Contains(p, x)
    ensures Contains(p + q, x)
  {
    var i :| 0 <= i <= |p| && OccursAt(p, x, i);
    assert (p + q)[i..i + |x|] == p[i..i + |x|];
    assert OccursAt(p + q, x, i);
  }

  /** Prepending text keeps what a string contains. */
  lemma ContainsPrepend(p: string, q: string, x: string)
    requires Contains(q, x)
    ensures Contains(p + q, x)
  {
    var i :| 0 <= i <= |q| && OccursAt(q, x, i);
    assert (p + q)[|p| + i..|p| + i + |x|] == q[i..i + |x|];
    assert OccursAt(p + q, x, |p| + i);
  }

}
