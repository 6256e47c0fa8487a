/** The reply side of `generateMessage` in lib/ai.ts: extracting the subject
    and the body from the model's reply text with the patterns
    `/SUBJECT:\s*(.+?)(?:\n|$)/i` and `/BODY:\s*\n([\s\S]+?)$/i`, trimming both,
    and collapsing every failure into one fixed message.

    The patterns are modelled by what `String.prototype.match` does with them,
    written out as string functions: the search tries start positions from
    left to right; at each one the greedy `\s*` first takes the whole run of
    whitespace and then gives characters back one at a time until the rest of
    the pattern matches. Neither pattern has the `m` or `s` flag, so `$` is the
    end of the reply and `.` stops at any line terminator. */
module ReplyParser {
  import opened Wrappers
  import opened Text

  const SubjectMarker: string := "SUBJECT:"
  const BodyMarker: string := "BODY:"

  /** The message every failure of `generateMessage` is reported with. */
  const GenerateFailure: string := "Failed to generate message. Please try again."

  datatype Generated = Generated(subject: string, body: string)

  /** How the call to the language model ended. */
  datatype Completion =
    | Replied(content: Option<string>)   // `choices[0]?.message?.content`
    | CallFailed                         // the request threw

  /** End of the run of non-line-terminators starting at `k`: how far `.` can reach. */
  function LineEnd(t: string, k: nat): (e: nat)
    requires k <= |t|
    ensures k <= e <= |t|
    ensures forall i :: k <= i < e ==> !IsLineTerminator(t[i])
    ensures e == |t| || IsLineTerminator(t[e])
    decreases |t| - k
  {
    if k < |t| && !IsLineTerminator(t[k]) then LineEnd(t, k + 1) else k
  }

  /** `(.+?)(?:\n|$)` started at `k`. The lazy group can only stop where
      `\n` or the end follows, and `.` cannot pass a line terminator, so the
      only candidate stop is the end of the line; the group must be non-empty
      and the line must end in `\n` or at the end of the reply (not in `\r`,
      U+2028 or U+2029). */
  function SubjectTail(t: string, k: nat): (r: Option<string>)
    requires k <= |t|
    ensures r.Some? <==> k < LineEnd(t, k) && (LineEnd(t, k) == |t| || t[LineEnd(t, k)] == '\n')
    ensures r.Some? ==> r.value == t[k..LineEnd(t, k)] && NoLineTerminator(r.value)
  {
    var e := LineEnd(t, k);
    if k < e && (e == |t| || t[e] == '\n') then
      Some(t[k..e])
    else None
  }

  /** `\s*` giving back characters: tries the tail at `k`, then at `k - 1`, down to `q`. */
  function SubjectBacktrack(t: string, q: nat, k: nat): (r: Option<string>)
    requires q <= k <= |t|
    ensures r.Some? ==> |r.value| > 0 && NoLineTerminator(r.value)
    ensures SubjectTail(t, k).Some? ==> r == SubjectTail(t, k)
    decreases k
  {
    match SubjectTail(t, k)
    case Some(c) => Some(c)
    case None => if k == q then None else SubjectBacktrack(t, q, k - 1)
  }

  /** The capture of the subject pattern anchored at position `p`, if it matches there. */
  function SubjectAt(t: string, p: nat): (r: Option<string>)
    requires p <= |t|
    ensures r.Some? ==> MatchesAt(t, p, SubjectMarker)
    ensures r.Some? ==> |r.value| > 0 && NoLineTerminator(r.value)
  {
    if MatchesAt(t, p, SubjectMarker) then
      var q := p + |SubjectMarker|;
      SubjectBacktrack(t, q, SkipSpaces(t, q))
    else None
  }

  /** The subject capture of the leftmost match at or after `p`. */
  function FindSubject(t: string, p: nat): (r: Option<string>)
    requires p <= |t|
    ensures r.Some? ==> |r.value| > 0 && NoLineTerminator(r.value)
    ensures SubjectAt(t, p).Some? ==> r == SubjectAt(t, p)
    decreases |t| - p
  {
    match SubjectAt(t, p)
    case Some(c) => Some(c)
    case None => if p == |t| then None else FindSubject(t, p + 1)
  }

  /** `\n([\s\S]+?)$` after `\s*` gave back down to `k`: the line break the
      pattern uses, which is the last one from `k` down to `q` with at least
      one character after it; the lazy group then runs to the end of the reply. */
  function BodyBreak(t: string, q: nat, k: nat): (r: Option<nat>)
    requires q <= k <= |t|
    ensures r.Some? ==> q <= r.value <= k && r.value + 1 < |t| && t[r.value] == '\n'
    ensures r.Some? ==> forall j :: r.value < j <= k ==> !(j + 1 < |t| && t[j] == '\n')
    ensures r.None? <==> forall j :: q <= j <= k && j + 1 < |t| ==> t[j] != '\n'
    ensures k + 1 < |t| && t[k] == '\n' ==> r == Some(k)
    decreases k
  {
    if k + 1 < |t| && t[k] == '\n' then Some(k)
    else if k == q then None
    else BodyBreak(t, q, k - 1)
  }

  /** The capture of the body pattern anchored at position `p`, if it matches there. */
  function BodyAt(t: string, p: nat): (r: Option<string>)
    requires p <= |t|
    ensures r.Some? ==> MatchesAt(t, p, BodyMarker) && |r.value| > 0
  {
    if MatchesAt(t, p, BodyMarker) then
      var q := p + |BodyMarker|;
      match BodyBreak(t, q, SkipSpaces(t, q))
      case Some(j) => Some(t[j + 1..])
      case None => None
    else None
  }

  /** The body capture of the leftmost match at or after `p`. */
  function FindBody(t: string, p: nat): (r: Option<string>)
    requires p <= |t|
    ensures BodyAt(t, p).Some? ==> r == BodyAt(t, p)
    decreases |t| - p
  {
    match BodyAt(t, p)
    case Some(c) => Some(c)
    case None => if p == |t| then None else FindBody(t, p + 1)
  }

  /** Both patterns must match; each capture is then trimmed. */
  function Parse(t: string): (r: Option<Generated>)
    ensures r.Some? ==> IsTrimmed(r.value.subject) && NoLineTerminator(r.value.subject)
    ensures r.Some? ==> IsTrimmed(r.value.body)
    ensures r.Some? <==> FindSubject(t, 0).Some? && FindBody(t, 0).Some?
    ensures r.Some? ==> r.value.subject == Trim(FindSubject(t, 0).value)
                        && r.value.body == Trim(FindBody(t, 0).value)
  {
    match (FindSubject(t, 0), FindBody(t, 0))
    case (Some(s), Some(b)) =>
      TrimKeepsNoLineTerminator(s);
      Some(Generated(Trim(s), Trim(b)))
    case _ => None
  }

  lemma TrimKeepsNoLineTerminator(s: string)
    requires NoLineTerminator(s)
    ensures NoLineTerminator(Trim(s))
  {
    var r := Trim(s);
    var i := SkipSpaces(s, 0);
    TrimShape(s);
    forall j | 0 <= j < |r| ensures !IsLineTerminator(r[j]) {
      assert r[j] == s[i + j];
    }
  }

  /** `completion.choices[0]?.message?.content || ""`. */
  function ReplyText(content: Option<string>): (t: string)
    ensures content.Some? ==> t == content.value
    ensures content.None? ==> t == []
  {
    content.GetOr("")
  }

  /** `generateMessage` after the prompt is built: a failed call, a missing
      content string that counts as empty, or a reply either pattern does not
      match all end in the single fixed failure message. */
  function GenerateMessage(c: Completion): (r: Result<Generated>)
    ensures r.Failure? ==> r.error == GenerateFailure
    ensures r.Success? <==> c.Replied? && Parse(ReplyText(c.content)).Some?
    ensures r.Success? ==> r.value == Parse(ReplyText(c.content)).value
  {
    match c
    case CallFailed => Failure(GenerateFailure)
    case Replied(content) =>
      match Parse(ReplyText(content))
      case Some(g) => Success(g)
      case None => Failure(GenerateFailure)
  }

  // ---------------------------------------------------------------------------
  // What the patterns extract

  lemma {:induction false} LineEndAt(t: string, k: nat, e: nat)
    requires k <= e <= |t| && (e == |t| || IsLineTerminator(t[e]))
    requires forall i :: k <= i < e ==> !IsLineTerminator(t[i])
    ensures LineEnd(t, k) == e
    decreases e - k
  {
    if k < e {
      assert !IsLineTerminator(t[k..e][0]);
      assert t[k + 1..e] == t[k..e][1..];
      LineEndAt(t, k + 1, e);
    }
  }

  /** Start positions without the marker do not change the leftmost match. */
  lemma FindSubjectSkips(t: string, j: nat, p: nat)
    requires j <= p <= |t|
    requires forall i :: j <= i < p ==> !MatchesAt(t, i, SubjectMarker)
    ensures FindSubject(t, j) == FindSubject(t, p)
  {
    var at, search := SubjectAtOrNone(t), FindSubjectOrNone(t);
    FindSubjectScans(t);
    forall i | j <= i < p
      ensures at(i).None?
    {
      assert !MatchesAt(t, i, SubjectMarker) && at(i) == SubjectAt(t, i);
    }
    ScanSkips(at, search, |t|, j, p);
    assert search(j) == FindSubject(t, j) && search(p) == FindSubject(t, p);
  }

  lemma FindBodySkips(t: string, j: nat, p: nat)
    requires j <= p <= |t|
    requires forall i :: j <= i < p ==> !MatchesAt(t, i, BodyMarker)
    ensures FindBody(t, j) == FindBody(t, p)
  {
    var at, search := BodyAtOrNone(t), FindBodyOrNone(t);
    FindBodyScans(t);
    forall i | j <= i < p
      ensures at(i).None?
    {
      assert !MatchesAt(t, i, BodyMarker) && at(i) == BodyAt(t, i);
    }
    ScanSkips(at, search, |t|, j, p);
    assert search(j) == FindBody(t, j) && search(p) == FindBody(t, p);
  }

  /** If no tail matches from `q` to `k`, backtracking finds nothing. */
  lemma {:induction false} SubjectBacktrackNone(t: string, q: nat, k: nat)
    requires q <= k <= |t|
    requires forall j :: q <= j <= k ==> SubjectTail(t, j).None?
    ensures SubjectBacktrack(t, q, k).None?
    decreases k
  {
    if k > q {
      SubjectBacktrackNone(t, q, k - 1);
    }
  }

  /** `search` scans positions `k` down to `q` for the first one where `at`
      yields a capture: it takes `at(k)` when that is a capture and moves on
      to `k - 1` otherwise, giving up after `q`. */
  ghost predicate ScansBack(at: nat -> Option<string>, search: nat -> Option<string>, q: nat, n: nat)
  {
    forall k: nat {:trigger at(k)} :: q <= k <= n ==>
      search(k) == (if at(k).Some? then at(k) else if k == q then None else search(k - 1))
  }

  /** A backward scan that finds nothing passed over no capture. */
  lemma {:induction false} BackScanNone(at: nat -> Option<string>, search: nat -> Option<string>, q: nat, n: nat, k: nat)
    requires ScansBack(at, search, q, n) && q <= k <= n
    ensures search(k).None? ==> forall j :: q <= j <= k ==> at(j).None?
    decreases k
  {
    assert search(k) == (if at(k).Some? then at(k) else if k == q then None else search(k - 1));
    if q < k {
      BackScanNone(at, search, q, n, k - 1);
    }
  }

  /** A backward scan that finds something returns the capture at position
      `j`, the last position up to `k` where `at` yields one. */
  lemma {:induction false} BackScanLast(at: nat -> Option<string>, search: nat -> Option<string>, q: nat, n: nat, k: nat)
    returns (j: nat)
    requires ScansBack(at, search, q, n) && q <= k <= n
    ensures search(k).Some? ==>
              q <= j <= k && search(k) == at(j) && forall i :: j < i <= k ==> at(i).None?
    decreases k
  {
    assert search(k) == (if at(k).Some? then at(k) else if k == q then None else search(k - 1));
    j := k;
    if at(k).None? && q < k {
      j := BackScanLast(at, search, q, n, k - 1);
    }
  }

  /** `SubjectTail` and `SubjectBacktrack` as functions of the position, `None` outside the range. */
  function SubjectTailOrNone(t: string): nat -> Option<string> {
    (k: nat) => if k <= |t| then SubjectTail(t, k) else None
  }

  function SubjectBacktrackOrNone(t: string, q: nat): nat -> Option<string> {
    (k: nat) => if q <= k <= |t| then SubjectBacktrack(t, q, k) else None
  }

  /** `SubjectBacktrack` is a backward scan over `SubjectTail`. */
  lemma SubjectBacktrackScans(t: string, q: nat)
    ensures ScansBack(SubjectTailOrNone(t), SubjectBacktrackOrNone(t, q), q, |t|)
  {
    var at, search := SubjectTailOrNone(t), SubjectBacktrackOrNone(t, q);
    forall k: nat | q <= k <= |t|
      ensures search(k) == (if at(k).Some? then at(k) else if k == q then None else search(k - 1))
    {
      assert search(k) == SubjectBacktrack(t, q, k) && at(k) == SubjectTail(t, k);
      if k > q {
        assert search(k - 1) == SubjectBacktrack(t, q, k - 1);
      }
    }
  }

  /** The greedy `\s*` gives characters back one at a time: backtracking
      from `k` down to `q` succeeds exactly when some tail in that range
      matches, and then yields the tail at the LAST such position, that is,
      with the longest whitespace run. */
  lemma {:induction false} BacktrackLast(t: string, q: nat, k: nat)
    requires q <= k <= |t|
    ensures SubjectBacktrack(t, q, k).Some? <==> exists j :: q <= j <= k && SubjectTail(t, j).Some?
    ensures SubjectBacktrack(t, q, k).Some? ==>
              exists j :: q <= j <= k && SubjectBacktrack(t, q, k) == SubjectTail(t, j)
                          && forall i :: j < i <= k ==> SubjectTail(t, i).None?
  {
    BacktrackNoTail(t, q, k);
    var j := BacktrackTail(t, q, k);
  }

  /** Backtracking finds nothing only when no tail from `q` to `k` matches. */
  lemma BacktrackNoTail(t: string, q: nat, k: nat)
    requires q <= k <= |t|
    ensures SubjectBacktrack(t, q, k).None? ==> forall j :: q <= j <= k ==> SubjectTail(t, j).None?
  {
    var at, search := SubjectTailOrNone(t), SubjectBacktrackOrNone(t, q);
    SubjectBacktrackScans(t, q);
    BackScanNone(at, search, q, |t|, k);
    if SubjectBacktrack(t, q, k).None? {
      assert search(k).None?;
      forall j | q <= j <= k
        ensures SubjectTail(t, j).None?
      {
        assert at(j).None?;
      }
    }
  }

  /** Successful backtracking yields the tail at position `j`, the last
      position up to `k` where a tail matches. */
  lemma BacktrackTail(t: string, q: nat, k: nat) returns (j: nat)
    requires q <= k <= |t|
    ensures SubjectBacktrack(t, q, k).Some? ==>
              q <= j <= k && SubjectBacktrack(t, q, k) == SubjectTail(t, j)
              && forall i :: j < i <= k ==> SubjectTail(t, i).None?
  {
    var at, search := SubjectTailOrNone(t), SubjectBacktrackOrNone(t, q);
    SubjectBacktrackScans(t, q);
    j := BackScanLast(at, search, q, |t|, k);
    if SubjectBacktrack(t, q, k).Some? {
      assert search(k) == SubjectBacktrack(t, q, k) && at(j) == SubjectTail(t, j);
      forall i | j < i <= k
        ensures SubjectTail(t, i).None?
      {
        assert at(i).None?;
      }
    }
  }

  /** `search` scans positions `k..n` for the first one where `at` yields a
      capture: it takes `at(k)` when that is a capture and moves on to `k + 1`
      otherwise, giving up after `n`. Stated for any `at`, so the facts below
      hold for both patterns without unfolding either. */
  ghost predicate ScansLeftmost(at: nat -> Option<string>, search: nat -> Option<string>, n: nat)
  {
    forall k: nat {:trigger at(k)} :: k <= n ==>
      search(k) == (if at(k).Some? then at(k) else if k == n then None else search(k + 1))
  }

  /** A scan that finds nothing passed over no capture. */
  lemma {:induction false} ScanNone(at: nat -> Option<string>, search: nat -> Option<string>, n: nat, p: nat)
    requires ScansLeftmost(at, search, n) && p <= n
    ensures search(p).None? ==> forall k :: p <= k <= n ==> at(k).None?
    decreases n - p
  {
    assert search(p) == (if at(p).Some? then at(p) else if p == n then None else search(p + 1));
    if p < n {
      ScanNone(at, search, n, p + 1);
    }
  }

  /** A scan that finds something returns the capture at position `i`, the
      first position from `p` on where `at` yields one. */
  lemma {:induction false} ScanFirst(at: nat -> Option<string>, search: nat -> Option<string>, n: nat, p: nat)
    returns (i: nat)
    requires ScansLeftmost(at, search, n) && p <= n
    ensures search(p).Some? ==>
              p <= i <= n && search(p) == at(i) && forall j :: p <= j < i ==> at(j).None?
    decreases n - p
  {
    assert search(p) == (if at(p).Some? then at(p) else if p == n then None else search(p + 1));
    i := p;
    if at(p).None? && p < n {
      i := ScanFirst(at, search, n, p + 1);
    }
  }

  /** A scan passes over positions where `at` yields nothing. */
  lemma {:induction false} ScanSkips(at: nat -> Option<string>, search: nat -> Option<string>, n: nat, j: nat, p: nat)
    requires ScansLeftmost(at, search, n) && j <= p <= n
    requires forall i :: j <= i < p ==> at(i).None?
    ensures search(j) == search(p)
    decreases p - j
  {
    if j < p {
      assert at(j).None? && search(j) == search(j + 1);
      ScanSkips(at, search, n, j + 1, p);
    }
  }

  /** `SubjectAt` and `FindSubject` as functions of the position, `None` past the end. */
  function SubjectAtOrNone(t: string): nat -> Option<string> {
    (k: nat) => if k <= |t| then SubjectAt(t, k) else None
  }

  function FindSubjectOrNone(t: string): nat -> Option<string> {
    (k: nat) => if k <= |t| then FindSubject(t, k) else None
  }

  /** `FindSubject` is a leftmost scan over `SubjectAt`. */
  lemma FindSubjectScans(t: string)
    ensures ScansLeftmost(SubjectAtOrNone(t), FindSubjectOrNone(t), |t|)
  {
    var at, search := SubjectAtOrNone(t), FindSubjectOrNone(t);
    forall k: nat | k <= |t|
      ensures search(k) == (if at(k).Some? then at(k) else if k == |t| then None else search(k + 1))
    {
      assert search(k) == FindSubject(t, k) && at(k) == SubjectAt(t, k);
    }
  }

  /** No position from `p` on matches the subject pattern when the search from `p` fails. */
  lemma FindSubjectNoMatch(t: string, p: nat)
    requires p <= |t|
    ensures FindSubject(t, p).None? ==> forall i :: p <= i <= |t| ==> SubjectAt(t, i).None?
  {
    var at, search := SubjectAtOrNone(t), FindSubjectOrNone(t);
    FindSubjectScans(t);
    ScanNone(at, search, |t|, p);
    if FindSubject(t, p).None? {
      assert search(p).None?;
      forall i | p <= i <= |t|
        ensures SubjectAt(t, i).None?
      {
        assert at(i).None?;
      }
    }
  }

  /** A successful search from `p` yields the capture at position `i`, a
      position where the subject pattern matches with no match between `p` and it. */
  lemma FindSubjectFirst(t: string, p: nat) returns (i: nat)
    requires p <= |t|
    ensures FindSubject(t, p).Some? ==>
              p <= i <= |t| && FindSubject(t, p) == SubjectAt(t, i)
              && forall j :: p <= j < i ==> SubjectAt(t, j).None?
  {
    var at, search := SubjectAtOrNone(t), FindSubjectOrNone(t);
    FindSubjectScans(t);
    i := ScanFirst(at, search, |t|, p);
    if FindSubject(t, p).Some? {
      assert search(p) == FindSubject(t, p) && at(i) == SubjectAt(t, i);
      forall j | p <= j < i
        ensures SubjectAt(t, j).None?
      {
        assert at(j).None?;
      }
    }
  }

  /** `match` returns the leftmost match: the search from `p` succeeds exactly
      when the subject pattern matches at some position at or after `p`, and
      then yields the capture at the FIRST such position. */
  lemma {:induction false} FindSubjectLeftmost(t: string, p: nat)
    requires p <= |t|
    ensures FindSubject(t, p).Some? <==> exists i :: p <= i <= |t| && SubjectAt(t, i).Some?
    ensures FindSubject(t, p).Some? ==>
              exists i :: p <= i <= |t| && FindSubject(t, p) == SubjectAt(t, i)
                          && forall j :: p <= j < i ==> SubjectAt(t, j).None?
  {
    FindSubjectNoMatch(t, p);
    var i := FindSubjectFirst(t, p);
  }

  /** `BodyAt` and `FindBody` as functions of the position, `None` past the end. */
  function BodyAtOrNone(t: string): nat -> Option<string> {
    (k: nat) => if k <= |t| then BodyAt(t, k) else None
  }

  function FindBodyOrNone(t: string): nat -> Option<string> {
    (k: nat) => if k <= |t| then FindBody(t, k) else None
  }

  /** `FindBody` is a leftmost scan over `BodyAt`. */
  lemma FindBodyScans(t: string)
    ensures ScansLeftmost(BodyAtOrNone(t), FindBodyOrNone(t), |t|)
  {
    var at, search := BodyAtOrNone(t), FindBodyOrNone(t);
    forall k: nat | k <= |t|
      ensures search(k) == (if at(k).Some? then at(k) else if k == |t| then None else search(k + 1))
    {
      assert search(k) == FindBody(t, k) && at(k) == BodyAt(t, k);
    }
  }

  /** No position from `p` on matches the body pattern when the search from `p` fails. */
  lemma FindBodyNoMatch(t: string, p: nat)
    requires p <= |t|
    ensures FindBody(t, p).None? ==> forall i :: p <= i <= |t| ==> BodyAt(t, i).None?
  {
    var at, search := BodyAtOrNone(t), FindBodyOrNone(t);
    FindBodyScans(t);
    ScanNone(at, search, |t|, p);
    if FindBody(t, p).None? {
      assert search(p).None?;
      forall i | p <= i <= |t|
        ensures BodyAt(t, i).None?
      {
        assert at(i).None?;
      }
    }
  }

  /** A successful search from `p` yields the capture at position `i`, a
      position where the body pattern matches with no match between `p` and it. */
  lemma FindBodyFirst(t: string, p: nat) returns (i: nat)
    requires p <= |t|
    ensures FindBody(t, p).Some? ==>
              p <= i <= |t| && FindBody(t, p) == BodyAt(t, i)
              && forall j :: p <= j < i ==> BodyAt(t, j).None?
  {
    var at, search := BodyAtOrNone(t), FindBodyOrNone(t);
    FindBodyScans(t);
    i := ScanFirst(at, search, |t|, p);
    if FindBody(t, p).Some? {
      assert search(p) == FindBody(t, p) && at(i) == BodyAt(t, i);
      forall j | p <= j < i
        ensures BodyAt(t, j).None?
      {
        assert at(j).None?;
      }
    }
  }

  /** The same for the body pattern: the search from `p` succeeds exactly
      when it matches at some position at or after `p`, and then yields the
      capture at the first such position. */
  lemma {:induction false} FindBodyLeftmost(t: string, p: nat)
    requires p <= |t|
    ensures FindBody(t, p).Some? <==> exists i :: p <= i <= |t| && BodyAt(t, i).Some?
    ensures FindBody(t, p).Some? ==>
              exists i :: p <= i <= |t| && FindBody(t, p) == BodyAt(t, i)
                          && forall j :: p <= j < i ==> BodyAt(t, j).None?
  {
    FindBodyNoMatch(t, p);
    var i := FindBodyFirst(t, p);
  }

  lemma MatchesAtChar(t: string, i: nat, m: string, j: nat)
    requires MatchesAt(t, i, m) && j < |m|
    ensures FoldCase(t[i + j]) == m[j]
  {
    assert FoldsTo(t, i, m, j);
  }

  /** The subject is the line after the first `SUBJECT:` marker, once the
      whitespace after the marker is skipped; that whitespace may span line
      breaks, so a blank subject line yields the next non-blank line. This
      holds whenever that line ends in `\n` or at the end of the reply. */
  lemma SubjectAfterFirstMarker(t: string, p: nat)
    requires p <= |t| && MatchesAt(t, p, SubjectMarker)
    requires forall i :: 0 <= i < p ==> !MatchesAt(t, i, SubjectMarker)
    requires SkipSpaces(t, p + |SubjectMarker|) < |t|
    requires var e := LineEnd(t, SkipSpaces(t, p + |SubjectMarker|)); e == |t| || t[e] == '\n'
    ensures var w := SkipSpaces(t, p + |SubjectMarker|);
            FindSubject(t, 0) == Some(t[w..LineEnd(t, w)])
  {
    var w := SkipSpaces(t, p + |SubjectMarker|);
    assert !IsLineTerminator(t[w]);
    assert SubjectAt(t, p) == Some(t[w..LineEnd(t, w)]);
    FindSubjectSkips(t, 0, p);
  }

  lemma {:induction false} LineEndThroughSpaces(t: string, k: nat, w: nat)
    requires k <= w <= |t| && forall i :: k <= i < w ==> !IsLineTerminator(t[i])
    ensures LineEnd(t, k) == LineEnd(t, w)
    decreases w - k
  {
    if k < w {
      assert !IsLineTerminator(t[k..w][0]);
      assert t[k + 1..w] == t[k..w][1..];
      LineEndThroughSpaces(t, k + 1, w);
    }
  }

  /** A `SUBJECT:` line that carries text and ends in a line terminator other
      than `\n` (a carriage return, as in a CRLF reply, or U+2028 or U+2029)
      is not a match at that marker: `.` cannot consume the terminator, and
      neither `\n` nor the end of the reply follows the text before it. The
      whitespace run after the marker must stay on the marker's line; a run
      that crosses a line break reaches a later line instead. */
  lemma CarriageReturnDefeatsSubject(t: string, p: nat)
    requires p <= |t| && MatchesAt(t, p, SubjectMarker)
    requires var q := p + |SubjectMarker|;
             forall i :: q <= i < SkipSpaces(t, q) ==> !IsLineTerminator(t[i])
    requires var e := LineEnd(t, p + |SubjectMarker|); e < |t| && t[e] != '\n'
    ensures SubjectAt(t, p).None?
  {
    var q := p + |SubjectMarker|;
    var w := SkipSpaces(t, q);
    forall j | q <= j <= w
      ensures SubjectTail(t, j).None?
    {
      assert t[j..w] == t[q..w][j - q..];
      LineEndThroughSpaces(t, j, w);
      LineEndThroughSpaces(t, q, w);
    }
    SubjectBacktrackNone(t, q, w);
  }

  /** A `SUBJECT:` marker followed by nothing but spaces up to the end of the
      reply still matches: `\s*` gives back the last space, which becomes the
      capture, so the trimmed subject is empty. */
  lemma BlankTrailingSubject(t: string, p: nat)
    requires p + |SubjectMarker| < |t| && MatchesAt(t, p, SubjectMarker)
    requires SkipSpaces(t, p + |SubjectMarker|) == |t| && !IsLineTerminator(t[|t| - 1])
    ensures SubjectAt(t, p) == Some(t[|t| - 1..])
    ensures Trim(SubjectAt(t, p).value) == []
  {
    var q := p + |SubjectMarker|;
    SkipSpacesOver(t, q);
    var k := |t| - 1;
    assert SubjectTail(t, |t|).None?;
    assert LineEnd(t, k) == |t|;
    assert SubjectTail(t, k).Some?;
    assert SubjectTail(t, k).value == t[k..|t|] == t[k..];
    assert SubjectBacktrack(t, q, |t|) == SubjectTail(t, k);
    assert SubjectAt(t, p) == SubjectBacktrack(t, q, |t|);
    assert t[k..] == [t[k]] && IsSpace(t[k]);
  }

  /** The body is everything after the first `BODY:` marker, trimmed, provided
      the whitespace after that marker holds a line break that is not the last
      character of the reply. */
  lemma BodyAfterFirstMarker(t: string, p: nat)
    requires p <= |t| && MatchesAt(t, p, BodyMarker)
    requires forall i :: 0 <= i < p ==> !MatchesAt(t, i, BodyMarker)
    requires var q := p + |BodyMarker|;
             exists j :: q <= j < SkipSpaces(t, q) && j + 1 < |t| && t[j] == '\n'
    ensures FindBody(t, 0).Some?
    ensures Trim(FindBody(t, 0).value) == Trim(t[p + |BodyMarker|..])
  {
    var j := FirstBodyCapture(t, p);
    FoundBodyTrims(t, p, j);
  }

  /** A leftmost capture that starts after a line break inside the whitespace
      run trims to the trimmed rest of the reply after the marker. */
  lemma FoundBodyTrims(t: string, p: nat, j: nat)
    requires p + |BodyMarker| <= |t| && p + |BodyMarker| <= j < SkipSpaces(t, p + |BodyMarker|)
    requires FindBody(t, 0) == Some(t[j + 1..])
    ensures Trim(FindBody(t, 0).value) == Trim(t[p + |BodyMarker|..])
  {
    CaptureTrims(t, p + |BodyMarker|, j, t[j + 1..]);
  }

  /** The leftmost body match is the capture at the first marker. */
  lemma FirstBodyCapture(t: string, p: nat) returns (j: nat)
    requires p <= |t| && MatchesAt(t, p, BodyMarker)
    requires forall i :: 0 <= i < p ==> !MatchesAt(t, i, BodyMarker)
    requires var q := p + |BodyMarker|;
             exists j :: q <= j < SkipSpaces(t, q) && j + 1 < |t| && t[j] == '\n'
    ensures var q := p + |BodyMarker|; q <= j < SkipSpaces(t, q)
    ensures FindBody(t, 0) == Some(t[j + 1..])
  {
    j := BodyCapture(t, p);
    FirstBodyMatch(t, p);
  }

  /** Both fields at once: the subject is the trimmed line found after the
      first `SUBJECT:` marker and the body is the trimmed rest of the reply
      after the first `BODY:` marker. */
  lemma ParseAtFirstMarkers(t: string, p: nat, b: nat)
    requires p <= |t| && MatchesAt(t, p, SubjectMarker)
    requires forall i :: 0 <= i < p ==> !MatchesAt(t, i, SubjectMarker)
    requires SkipSpaces(t, p + |SubjectMarker|) < |t|
    requires var e := LineEnd(t, SkipSpaces(t, p + |SubjectMarker|)); e == |t| || t[e] == '\n'
    requires b <= |t| && MatchesAt(t, b, BodyMarker)
    requires forall i :: 0 <= i < b ==> !MatchesAt(t, i, BodyMarker)
    requires var q := b + |BodyMarker|;
             exists j :: q <= j < SkipSpaces(t, q) && j + 1 < |t| && t[j] == '\n'
    ensures var w := SkipSpaces(t, p + |SubjectMarker|);
            Parse(t) == Some(Generated(Trim(t[w..LineEnd(t, w)]), Trim(t[b + |BodyMarker|..])))
  {
    var w := SkipSpaces(t, p + |SubjectMarker|);
    SubjectAfterFirstMarker(t, p);
    BodyAfterFirstMarker(t, b);
    ParseOfFound(t, Trim(t[w..LineEnd(t, w)]), Trim(t[b + |BodyMarker|..]));
  }

  /** With no `BODY:` marker before `p`, the leftmost body match is the one at `p`. */
  lemma FirstBodyMatch(t: string, p: nat)
    requires p <= |t|
    requires forall i :: 0 <= i < p ==> !MatchesAt(t, i, BodyMarker)
    ensures FindBody(t, 0) == FindBody(t, p)
  {
    FindBodySkips(t, 0, p);
  }

  /** The body pattern anchored at a marker followed by a usable line break
      captures the rest of the reply after the last such line break of the
      whitespace run. */
  lemma BodyCapture(t: string, p: nat) returns (j: nat)
    requires p <= |t| && MatchesAt(t, p, BodyMarker)
    requires var q := p + |BodyMarker|;
             exists j :: q <= j < SkipSpaces(t, q) && j + 1 < |t| && t[j] == '\n'
    ensures var q := p + |BodyMarker|; q <= j < SkipSpaces(t, q)
    ensures BodyAt(t, p) == Some(t[j + 1..]) && FindBody(t, p) == BodyAt(t, p)
  {
    var q := p + |BodyMarker|;
    var w := SkipSpaces(t, q);
    var j0 :| q <= j0 < w && j0 + 1 < |t| && t[j0] == '\n';
    j := BodyBreak(t, q, w).value;
    assert IsSpace(t[j]);
  }

  /** A capture that starts after a line break inside the whitespace run
      trims to the same text as everything after the marker. */
  lemma CaptureTrims(t: string, q: nat, j: nat, c: string)
    requires q <= |t| && q <= j < SkipSpaces(t, q) && c == t[j + 1..]
    ensures Trim(c) == Trim(t[q..])
  {
    SkipSpacesOver(t, q);
    TrimSkipsSpaces(t, q, j + 1, SkipSpaces(t, q));
  }

  /** Whitespace inside the greedy run may be dropped before trimming. */
  lemma TrimSkipsSpaces(t: string, q: nat, k: nat, w: nat)
    requires q <= k <= w <= |t| && forall i :: q <= i < w ==> IsSpace(t[i])
    ensures Trim(t[q..]) == Trim(t[k..])
  {
    assert t[q..] == t[q..k] + t[k..];
    TrimDropsLeadingSpace(t[q..k], t[k..]);
  }

  /** A `BODY:` marker whose following whitespace has no line break (text on
      the same line) is not a match there. */
  lemma BodyNeedsLineBreak(t: string, p: nat)
    requires p <= |t|
    requires var q := p + |BodyMarker|;
             q <= |t| && forall j :: q <= j < SkipSpaces(t, q) ==> t[j] != '\n'
    ensures BodyAt(t, p).None?
  {
  }

  // ---------------------------------------------------------------------------
  // Failures

  /** A reply without a `SUBJECT:` marker, in any letter case, cannot be parsed. */
  lemma MissingSubjectMarkerFails(t: string)
    requires forall i :: 0 <= i <= |t| ==> !MatchesAt(t, i, SubjectMarker)
    ensures Parse(t).None?
  {
    FindSubjectSkips(t, 0, |t|);
  }

  /** A reply without a `BODY:` marker, in any letter case, cannot be parsed. */
  lemma MissingBodyMarkerFails(t: string)
    requires forall i :: 0 <= i <= |t| ==> !MatchesAt(t, i, BodyMarker)
    ensures Parse(t).None?
  {
    FindBodySkips(t, 0, |t|);
  }

  /** A failed call, or a reply without content, yields the fixed failure message. */
  lemma NoContentFails(c: Completion)
    requires c.CallFailed? || c.content.None?
    ensures GenerateMessage(c) == Failure(GenerateFailure)
  {
    if c.Replied? {
      MissingSubjectMarkerFails("");
    }
  }

  // ---------------------------------------------------------------------------
  // The requested layout round-trips

  /** A reply in the requested layout becomes the generated message, unchanged. */
  lemma GenerateFromLayout(subject: string, body: string)
    requires LayoutSubject(subject)
    requires body != [] && IsTrimmed(body)
    ensures GenerateMessage(Replied(Some(ReplyLayout(subject, body)))) == Success(Generated(subject, body))
  {
    LayoutRoundTrip(subject, body);
  }

  /** The reply layout the user prompt asks for. */
  function ReplyLayout(subject: string, body: string): string {
    "SUBJECT: " + subject + "\n\nBODY:\n" + body
  }

  /** A subject fit for the layout: one trimmed line without a `BODY:` marker in it. */
  predicate LayoutSubject(s: string) {
    s != [] && IsTrimmed(s) && NoLineTerminator(s)
    && forall i :: 0 <= i <= |s| ==> !MatchesAt(s, i, BodyMarker)
  }

  /** Parsing a reply in the requested layout gives back its subject and body. */
  lemma LayoutRoundTrip(subject: string, body: string)
    requires LayoutSubject(subject)
    requires body != [] && IsTrimmed(body)
    ensures Parse(ReplyLayout(subject, body)) == Some(Generated(subject, body))
  {
    LayoutSubjectFound(subject, body);
    LayoutBodyFound(subject, body);
    TrimOfPadded([], subject, []);
    assert [] + subject + [] == subject;
  }

  lemma LayoutSubjectFound(subject: string, body: string)
    requires LayoutSubject(subject)
    ensures FindSubject(ReplyLayout(subject, body), 0) == Some(subject)
  {
    var t := ReplyLayout(subject, body);
    var n := |subject|;
    assert t == "SUBJECT: " + subject + ("\n\nBODY:\n" + body);
    assert t[..9] == "SUBJECT: ";
    assert t[9..9 + n] == subject;
    assert t[9 + n] == '\n';
    assert MatchesAt(t, 0, SubjectMarker);
    SkipSpacesTo(t, 8, 9);
    LineEndAt(t, 9, 9 + n);
    SubjectAfterFirstMarker(t, 0);
  }

  lemma LayoutBodyFound(subject: string, body: string)
    requires LayoutSubject(subject)
    requires body != [] && IsTrimmed(body)
    ensures FindBody(ReplyLayout(subject, body), 0).Some?
    ensures Trim(FindBody(ReplyLayout(subject, body), 0).value) == body
  {
    LayoutBodyMarker(subject, body);
    BodyOnNextLine(ReplyLayout(subject, body), 9 + |subject| + 2, body);
  }

  /** A first `BODY:` marker directly followed by a line break and a trimmed,
      non-empty text yields that text as the body. */
  lemma BodyOnNextLine(t: string, p: nat, body: string)
    requires body != [] && IsTrimmed(body)
    requires p + 6 <= |t| && MatchesAt(t, p, BodyMarker)
    requires forall i :: 0 <= i < p ==> !MatchesAt(t, i, BodyMarker)
    requires SkipSpaces(t, p + 5) == p + 6 && t[p + 5] == '\n' && p + 6 < |t|
    requires t[p + 5..] == "\n" + body
    ensures FindBody(t, 0).Some? && Trim(FindBody(t, 0).value) == body
  {
    BodyAfterFirstMarker(t, p);
    TrimOfPadded("\n", body, []);
    assert "\n" + body + [] == "\n" + body;
  }

  /** In the layout the first `BODY:` marker is the one on its own line,
      followed directly by a line break and the body. */
  lemma LayoutBodyMarker(subject: string, body: string)
    requires LayoutSubject(subject)
    requires body != [] && IsTrimmed(body)
    ensures var t, p := ReplyLayout(subject, body), 9 + |subject| + 2;
            && p + 6 <= |t| && MatchesAt(t, p, BodyMarker)
            && (forall i :: 0 <= i < p ==> !MatchesAt(t, i, BodyMarker))
            && SkipSpaces(t, p + 5) == p + 6 && t[p + 5] == '\n' && p + 6 < |t|
            && t[p + 5..] == "\n" + body
  {
    var post := "\n\nBODY:\n" + body;
    var t := "SUBJECT: " + subject + post;
    assert t == ReplyLayout(subject, body);
    var p := 9 + |subject| + 2;
    assert t[p..p + 5] == "BODY:";
    assert MatchesAt(t, p, BodyMarker);
    forall i | 0 <= i < p
      ensures !MatchesAt(t, i, BodyMarker)
    {
      NoEarlierBody(subject, post, i);
    }
    assert t[p + 5..] == "\n" + body;
    SkipSpacesTo(t, p + 5, p + 6);
  }

  lemma NoEarlierBody(subject: string, post: string, i: nat)
    requires LayoutSubject(subject)
    requires |post| >= 6 && post[..6] == "\n\nBODY"
    requires i < 9 + |subject| + 2
    ensures !MatchesAt("SUBJECT: " + subject + post, i, BodyMarker)
  {
    var t := "SUBJECT: " + subject + post;
    var n := |subject|;
    if i < 9 {
      if MatchesAt(t, i, BodyMarker) {
        assert t[i] == "SUBJECT: "[i];
        MatchesAtChar(t, i, BodyMarker, 0);
        assert i == 2;
        MatchesAtChar(t, i, BodyMarker, 1);
        assert false;
      }
    } else if i + 5 <= 9 + n {
      MatchesInside("SUBJECT: ", subject, post, i, BodyMarker);
    } else if MatchesAt(t, i, BodyMarker) {
      MatchesAtChar(t, i, BodyMarker, 4);
      assert false;
    }
  }

  /** A match lying wholly inside the middle part of a string is a match in that part. */
  lemma MatchesInside(a: string, s: string, b: string, i: nat, m: string)
    requires |a| <= i && i + |m| <= |a| + |s|
    ensures MatchesAt(a + s + b, i, m) ==> MatchesAt(s, i - |a|, m)
  {
    var t := a + s + b;
    if MatchesAt(t, i, m) {
      forall j | 0 <= j < |m|
        ensures FoldCase(s[i - |a| + j]) == m[j]
      {
        MatchesAtChar(t, i, m, j);
        assert t[i + j] == s[i - |a| + j];
      }
    }
  }

  /** A blank subject line does not give an empty subject: the whitespace
      after `SUBJECT:` runs on to the next line, which in the requested layout
      is the `BODY:` marker line itself. */
  lemma BlankSubjectTakesNextLine(body: string)
    requires body != [] && IsTrimmed(body)
    ensures Parse(ReplyLayout("", body)) == Some(Generated("BODY:", body))
  {
    BlankLayoutSubject(body);
    BlankLayoutBody(body);
    TrimOfPadded([], "BODY:", []);
    assert [] + "BODY:" + [] == "BODY:";
    ParseOfFound(ReplyLayout("", body), "BODY:", body);
  }

  /** `Parse` in terms of the two leftmost matches and their trimmed captures. */
  lemma ParseOfFound(t: string, subject: string, body: string)
    requires FindSubject(t, 0).Some? && Trim(FindSubject(t, 0).value) == subject
    requires FindBody(t, 0).Some? && Trim(FindBody(t, 0).value) == body
    ensures Parse(t) == Some(Generated(subject, body))
  {
  }

  lemma BlankLayoutBody(body: string)
    requires body != [] && IsTrimmed(body)
    ensures FindBody(ReplyLayout("", body), 0).Some?
    ensures Trim(FindBody(ReplyLayout("", body), 0).value) == body
  {
    BlankLayoutBodyMarker(body);
    BodyOnNextLine(ReplyLayout("", body), 11, body);
  }

  lemma BlankLayoutSubject(body: string)
    ensures FindSubject(ReplyLayout("", body), 0) == Some("BODY:")
  {
    var t := ReplyLayout("", body);
    assert t == "SUBJECT: \n\nBODY:\n" + body;
    assert MatchesAt(t, 0, SubjectMarker);
    SkipSpacesTo(t, 8, 11);
    assert t[11..16] == "BODY:";
    LineEndAt(t, 11, 16);
    SubjectAfterFirstMarker(t, 0);
  }

  lemma BlankLayoutBodyMarker(body: string)
    requires body != [] && IsTrimmed(body)
    ensures var t := ReplyLayout("", body);
            && 17 <= |t| && MatchesAt(t, 11, BodyMarker)
            && (forall i :: 0 <= i < 11 ==> !MatchesAt(t, i, BodyMarker))
            && SkipSpaces(t, 16) == 17 && t[16] == '\n' && 17 < |t|
            && t[16..] == "\n" + body
  {
    var t := ReplyLayout("", body);
    assert t == "SUBJECT: \n\nBODY:\n" + body;
    assert MatchesAt(t, 11, BodyMarker);
    forall i | 0 <= i < 11
      ensures !MatchesAt(t, i, BodyMarker)
    {
      if MatchesAt(t, i, BodyMarker) {
        MatchesAtChar(t, i, BodyMarker, 0);
        MatchesAtChar(t, i, BodyMarker, 4);
        assert false;
      }
    }
    assert t[16..] == "\n" + body;
    assert t[16..17] == "\n";
    SkipSpacesTo(t, 16, 17);
  }
}
