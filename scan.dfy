/** The scans a regular expression engine performs over positions: `re.search` and
    `findall` attempt the pattern at each start in turn, and a lazy `.*?` tries the rest
    of the pattern after each character it takes; the first success is kept. */
module Scan {
  import opened Wrappers

  /** The first position from `i` on whose attempt succeeded. */
  function FirstFrom<T>(attempts: seq<Option<T>>, i: nat): (r: Option<nat>)
    requires i <= |attempts|
    ensures r.None? ==> forall j :: i <= j < |attempts| ==> attempts[j].None?
    ensures r.Some? ==>
      && i <= r.value < |attempts|
      && attempts[r.value].Some?
      && forall j :: i <= j < r.value ==> attempts[j].None?
    decreases |attempts| - i
  {
    if i == |attempts| then None
    else if attempts[i].Some? then Some(i)
    else FirstFrom(attempts, i + 1)
  }

  /** The first success among the positions `q + w`, `q + w - 1`, ..., `q + 1`: the scan
      of a greedy run that holds `w` characters and gives them back one at a time. */
  function Backtrack<T>(attempts: seq<Option<T>>, q: nat, w: nat): (r: Option<nat>)
    requires q + w < |attempts|
    ensures r.Some? ==>
      && q < r.value <= q + w
      && attempts[r.value].Some?
      && forall j :: r.value < j <= q + w ==> attempts[j].None?
    ensures r.None? ==> forall j :: q < j <= q + w ==> attempts[j].None?
    decreases w
  {
    if w == 0 then None
    else if attempts[q + w].Some? then Some(q + w)
    else Backtrack(attempts, q, w - 1)
  }

  /** The first newline at or after `i`, or the end of the text: how far `.` can reach. */
  function NextNewline(s: string, i: nat): (n: nat)
    requires i <= |s|
    ensures i <= n <= |s| && (n == |s| || s[n] == '\n')
    ensures forall j :: i <= j < n ==> s[j] != '\n'
    decreases |s| - i
  {
    if i == |s| || s[i] == '\n' then i else NextNewline(s, i + 1)
  }

  /** The first position from `i` on whose attempt succeeded, moving one character of `s`
      at a time and never over a newline: the scan of a lazy `.*?`. It fails only when
      every attempt up to the next newline, that one included, fails. */
  function LazyFrom<T>(attempts: seq<Option<T>>, s: string, i: nat): (r: Option<nat>)
    requires |attempts| == |s| + 1 && i <= |s|
    ensures r.Some? ==>
      && i <= r.value <= |s|
      && attempts[r.value].Some?
      && (forall j :: i <= j < r.value ==> attempts[j].None?)
      && forall j :: i <= j < r.value ==> s[j] != '\n'
    decreases |s| - i
  {
    if attempts[i].Some? then Some(i)
    else if i < |s| && s[i] != '\n' then LazyFrom(attempts, s, i + 1)
    else None
  }

  /** The lazy scan stays on its line, and fails exactly when every attempt up to the next
      newline, that one included, fails. */
  lemma {:induction false} LazyFromWithinLine<T>(attempts: seq<Option<T>>, s: string, i: nat)
    requires |attempts| == |s| + 1 && i <= |s|
    ensures LazyFrom(attempts, s, i).Some? ==> LazyFrom(attempts, s, i).value <= NextNewline(s, i)
    ensures LazyFrom(attempts, s, i).None? <==> forall j :: i <= j <= NextNewline(s, i) ==> attempts[j].None?
    decreases |s| - i
  {
    if attempts[i].None? && i < |s| && s[i] != '\n' {
      LazyFromWithinLine(attempts, s, i + 1);
    }
  }

  /** Over failed attempts and no newline, the lazy scan moves on unchanged. */
  lemma {:induction false} LazyFromSkips<T>(attempts: seq<Option<T>>, s: string, i: nat, b: nat)
    requires |attempts| == |s| + 1 && i <= b <= |s|
    requires forall j :: i <= j < b ==> attempts[j].None?
    requires forall j :: i <= j < b ==> s[j] != '\n'
    ensures LazyFrom(attempts, s, i) == LazyFrom(attempts, s, b)
    decreases b - i
  {
    if i < b {
      LazyFromSkips(attempts, s, i + 1, b);
    }
  }

  /** Failed attempts from `i` up to `b` leave the search for the first success unchanged. */
  lemma {:induction false} FirstFromSkip<T>(attempts: seq<Option<T>>, i: nat, b: nat)
    requires i <= b <= |attempts|
    requires forall j :: i <= j < b ==> attempts[j].None?
    ensures FirstFrom(attempts, i) == FirstFrom(attempts, b)
    decreases b - i
  {
    if i < b {
      FirstFromSkip(attempts, i + 1, b);
    }
  }

  /** The starts `findall` reports from `pos` on: the first match, then the scan resumes
      where that match ended. `attempts[j]` is the match at `j`, if any, and `End` says
      where a match ends. */
  function AllFrom<T>(attempts: seq<Option<T>>, End: T -> nat, pos: nat): (r: seq<nat>)
    requires pos <= |attempts|
    requires forall j :: 0 <= j < |attempts| && attempts[j].Some? ==> j < End(attempts[j].value)
    ensures forall k :: 0 <= k < |r| ==> pos <= r[k] < |attempts| && attempts[r[k]].Some?
    decreases |attempts| - pos
  {
    match FirstFrom(attempts, pos)
    case None => []
    case Some(j) =>
      var e := End(attempts[j].value);
      var rest := if e <= |attempts| then AllFrom(attempts, End, e) else [];
      assert forall k :: 0 < k <= |rest| ==> ([j] + rest)[k] == rest[k - 1];
      [j] + rest
  }

  /** `findall` passes over positions where nothing matches. */
  lemma AllFromSkip<T>(attempts: seq<Option<T>>, End: T -> nat, pos: nat, b: nat)
    requires pos <= b <= |attempts|
    requires forall j :: 0 <= j < |attempts| && attempts[j].Some? ==> j < End(attempts[j].value)
    requires forall j :: pos <= j < b ==> attempts[j].None?
    ensures AllFrom(attempts, End, pos) == AllFrom(attempts, End, b)
  {
    FirstFromSkip(attempts, pos, b);
  }

  /** A match at `pos` is the first one reported, and the scan resumes at its end. */
  lemma AllFromAt<T>(attempts: seq<Option<T>>, End: T -> nat, pos: nat)
    requires pos < |attempts| && attempts[pos].Some? && End(attempts[pos].value) <= |attempts|
    requires forall j :: 0 <= j < |attempts| && attempts[j].Some? ==> j < End(attempts[j].value)
    ensures AllFrom(attempts, End, pos) == [pos] + AllFrom(attempts, End, End(attempts[pos].value))
  {
  }

  /** The reported matches come left to right and do not overlap: each starts at or after
      the end of the one before. */
  lemma {:induction false} AllFromOrdered<T>(attempts: seq<Option<T>>, End: T -> nat, pos: nat)
    requires pos <= |attempts|
    requires forall j :: 0 <= j < |attempts| && attempts[j].Some? ==> j < End(attempts[j].value)
    ensures forall k :: 0 <= k < |AllFrom(attempts, End, pos)| - 1 ==>
      End(attempts[AllFrom(attempts, End, pos)[k]].value) <= AllFrom(attempts, End, pos)[k + 1]
    decreases |attempts| - pos
  {
    match FirstFrom(attempts, pos)
    case None =>
    case Some(j) =>
      var e := End(attempts[j].value);
      if e <= |attempts| {
        AllFromOrdered(attempts, End, e);
        var rest := AllFrom(attempts, End, e);
        var r := [j] + rest;
        assert AllFrom(attempts, End, pos) == r;
        forall k | 0 <= k < |r| - 1
          ensures End(attempts[r[k]].value) <= r[k + 1]
        {
          if k > 0 {
            assert r[k] == rest[k - 1] && r[k + 1] == rest[k];
          } else {
            assert r[0] == j && r[1] == rest[0];
            assert e <= rest[0];
          }
        }
      }
  }

  /** Position `j` is one of the reported starts or lies inside a reported match. */
  predicate Covered<T>(attempts: seq<Option<T>>, End: T -> nat, r: seq<nat>, j: nat) {
    exists k :: 0 <= k < |r| && r[k] < |attempts| && attempts[r[k]].Some? && r[k] <= j < End(attempts[r[k]].value)
  }

  lemma CoveredCons<T>(attempts: seq<Option<T>>, End: T -> nat, i: nat, rest: seq<nat>, j: nat)
    requires i < |attempts| && attempts[i].Some?
    requires i <= j < End(attempts[i].value) || Covered(attempts, End, rest, j)
    ensures Covered(attempts, End, [i] + rest, j)
  {
    if i <= j < End(attempts[i].value) {
      assert ([i] + rest)[0] == i;
    } else {
      var k :| 0 <= k < |rest| && rest[k] < |attempts| && attempts[rest[k]].Some? && rest[k] <= j < End(attempts[rest[k]].value);
      assert ([i] + rest)[k + 1] == rest[k];
    }
  }

  /** No match is skipped: every start from `pos` on where an attempt succeeds is reported
      or lies inside a reported match. */
  lemma {:induction false} AllFromComplete<T>(attempts: seq<Option<T>>, End: T -> nat, pos: nat, j: nat)
    requires pos <= j < |attempts| && attempts[j].Some?
    requires forall j :: 0 <= j < |attempts| && attempts[j].Some? ==> j < End(attempts[j].value)
    ensures Covered(attempts, End, AllFrom(attempts, End, pos), j)
    decreases |attempts| - pos
  {
    var i := FirstFrom(attempts, pos).value;
    var e := End(attempts[i].value);
    var rest := if e <= |attempts| then AllFrom(attempts, End, e) else [];
    assert AllFrom(attempts, End, pos) == [i] + rest;
    if j >= e {
      AllFromComplete(attempts, End, e, j);
    }
    CoveredCons(attempts, End, i, rest, j);
  }
}
