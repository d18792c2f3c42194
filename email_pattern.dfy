/**
 * The e-mail pattern `^[^\s@]+@[^\s@]+\.[^\s@]+$` that both revisions of the
 * submit validator use, as a predicate on strings, and its characterisation
 * by the position of the one `@` sign.
 */
module EmailPattern {
  import opened JsText

  /** A character of the class `[^\s@]`. */
  predicate IsPlain(c: char) {
    c != '@' && !IsWhitespace(c)
  }

  /** `[^\s@]+`: a non-empty run of plain characters. */
  predicate IsPlainRun(s: string) {
    |s| > 0 && forall k :: 0 <= k < |s| ==> IsPlain(s[k])
  }

  /**
   * The anchored pattern matches when s splits as run, `@`, run, `.`, run;
   * i is the position of the `@` and j that of the `.` the match uses.
   */
  predicate Matches(s: string) {
    exists i, j :: 0 <= i < j < |s| && s[i] == '@' && s[j] == '.'
      && IsPlainRun(s[..i]) && IsPlainRun(s[i + 1..j]) && IsPlainRun(s[j + 1..])
  }

  /** A concrete split witnesses a match. */
  lemma MatchesAt(s: string, i: nat, j: nat)
    requires i < j < |s| && s[i] == '@' && s[j] == '.'
    requires IsPlainRun(s[..i]) && IsPlainRun(s[i + 1..j]) && IsPlainRun(s[j + 1..])
    ensures Matches(s)
  {
  }

  /** The number of occurrences of c in s. */
  function Count(c: char, s: string): nat {
    if s == [] then 0 else Count(c, s[..|s| - 1]) + (if s[|s| - 1] == c then 1 else 0)
  }

  /** The position of the first c in s, or |s| when there is none. */
  function IndexOf(c: char, s: string): (r: nat)
    ensures r <= |s|
    ensures r < |s| ==> s[r] == c
    ensures forall k :: 0 <= k < r ==> s[k] != c
  {
    if s == [] then 0 else if s[0] == c then 0 else 1 + IndexOf(c, s[1..])
  }

  predicate NoWhitespace(s: string) {
    forall k :: 0 <= k < |s| ==> !IsWhitespace(s[k])
  }

  /** The part of an address before its first `@`. */
  function LocalPart(s: string): string {
    s[..IndexOf('@', s)]
  }

  /** The part of an address after its first `@` (empty when there is none). */
  function DomainPart(s: string): string {
    var at := IndexOf('@', s);
    if at < |s| then s[at + 1..] else []
  }

  /** d contains a `.` that is neither its first nor its last character. */
  predicate HasInnerDot(d: string) {
    exists j :: 0 < j < |d| - 1 && d[j] == '.'
  }

  /**
   * The characterisation: exactly one `@`, no whitespace, a non-empty part
   * before the `@`, and a domain with an inner `.`.
   */
  predicate HasAddressShape(s: string) {
    Count('@', s) == 1 && NoWhitespace(s) && |LocalPart(s)| > 0 && HasInnerDot(DomainPart(s))
  }

  lemma {:induction false} CountAppend(c: char, a: string, b: string)
    ensures Count(c, a + b) == Count(c, a) + Count(c, b)
    decreases |b|
  {
    if b != [] {
      assert (a + b)[..|a + b| - 1] == a + b[..|b| - 1];
      CountAppend(c, a, b[..|b| - 1]);
    } else {
      assert a + b == a;
    }
  }

  lemma {:induction false} CountZero(c: char, s: string)
    ensures Count(c, s) == 0 <==> forall k :: 0 <= k < |s| ==> s[k] != c
    decreases |s|
  {
    if s != [] {
      var p := s[..|s| - 1];
      CountZero(c, p);
      assert forall k :: 0 <= k < |p| ==> p[k] == s[k];
    }
  }

  /** s as the three pieces around position i. */
  lemma SplitAt(s: string, i: nat)
    requires i < |s|
    ensures s == s[..i] + [s[i]] + s[i + 1..]
  {
  }

  lemma RunOfSlice(s: string, lo: nat, hi: nat)
    requires lo < hi <= |s|
    requires forall k :: lo <= k < hi ==> IsPlain(s[k])
    ensures IsPlainRun(s[lo..hi])
  {
    var r := s[lo..hi];
    forall k | 0 <= k < |r| ensures IsPlain(r[k]) {
      assert r[k] == s[lo + k];
    }
  }

  lemma SliceOfRun(s: string, lo: nat, hi: nat)
    requires lo <= hi <= |s|
    requires IsPlainRun(s[lo..hi])
    ensures forall k :: lo <= k < hi ==> IsPlain(s[k])
  {
    var r := s[lo..hi];
    forall k | lo <= k < hi ensures IsPlain(s[k]) {
      assert s[k] == r[k - lo];
    }
  }

  /** An `@` at i and nowhere else: it is the one and the first. */
  lemma OnlyAtSign(s: string, i: nat)
    requires i < |s| && s[i] == '@'
    requires forall k :: 0 <= k < |s| && k != i ==> s[k] != '@'
    ensures Count('@', s) == 1 && IndexOf('@', s) == i
  {
    var before, after := s[..i], s[i + 1..];
    assert forall k :: 0 <= k < |before| ==> before[k] == s[k];
    assert forall k :: 0 <= k < |after| ==> after[k] == s[i + 1 + k];
    CountZero('@', before);
    CountZero('@', after);
    CountAppend('@', before, [s[i]]);
    CountAppend('@', before + [s[i]], after);
    SplitAt(s, i);
  }

  /** With exactly one `@`, it sits at IndexOf and nothing after it is an `@`. */
  lemma OneAtSign(s: string)
    requires Count('@', s) == 1
    ensures IndexOf('@', s) < |s|
    ensures forall k :: IndexOf('@', s) < k < |s| ==> s[k] != '@'
  {
    var i := IndexOf('@', s);
    if i == |s| {
      CountZero('@', s);
      assert false;
    }
    var after := s[i + 1..];
    SplitAt(s, i);
    CountAppend('@', s[..i], [s[i]]);
    CountAppend('@', s[..i] + [s[i]], after);
    CountZero('@', after);
    assert forall k :: i < k < |s| ==> s[k] == after[k - i - 1];
  }

  lemma MatchesImpliesShape(s: string)
    requires Matches(s)
    ensures HasAddressShape(s)
  {
    var i, j :| 0 <= i < j < |s| && s[i] == '@' && s[j] == '.'
      && IsPlainRun(s[..i]) && IsPlainRun(s[i + 1..j]) && IsPlainRun(s[j + 1..]);
    SliceOfRun(s, 0, i);
    SliceOfRun(s, i + 1, j);
    SliceOfRun(s, j + 1, |s|);
    assert forall k :: 0 <= k < |s| && k != i && k != j ==> IsPlain(s[k]);
    assert !IsWhitespace('@') && !IsWhitespace('.');
    assert NoWhitespace(s);
    OnlyAtSign(s, i);
    assert |LocalPart(s)| > 0;
    var d := DomainPart(s);
    assert d == s[i + 1..];
    assert d[j - i - 1] == '.';
  }

  /** In an address of the right shape, every character but the `@` is plain. */
  lemma PlainBesidesAt(s: string)
    requires HasAddressShape(s)
    ensures IndexOf('@', s) < |s|
    ensures forall k :: 0 <= k < |s| && k != IndexOf('@', s) ==> IsPlain(s[k])
  {
    OneAtSign(s);
  }

  lemma ShapeImpliesMatches(s: string)
    requires HasAddressShape(s)
    ensures Matches(s)
  {
    PlainBesidesAt(s);
    var i := IndexOf('@', s);
    var d := DomainPart(s);
    var jd :| 0 < jd < |d| - 1 && d[jd] == '.';
    var j := i + 1 + jd;
    assert s[j] == '.' by {
      assert d == s[i + 1..];
    }
    RunOfSlice(s, 0, i);
    RunOfSlice(s, i + 1, j);
    RunOfSlice(s, j + 1, |s|);
    MatchesAt(s, i, j);
  }

  /** A string without an `@` never matches. */
  lemma NoAtSignNoMatch(s: string)
    requires forall k :: 0 <= k < |s| ==> s[k] != '@'
    ensures !Matches(s)
  {
  }

  /** The pattern and its characterisation agree on every string. */
  lemma MatchesIffShape(s: string)
    ensures Matches(s) <==> HasAddressShape(s)
  {
    if Matches(s) { MatchesImpliesShape(s); }
    if HasAddressShape(s) { ShapeImpliesMatches(s); }
  }
}
