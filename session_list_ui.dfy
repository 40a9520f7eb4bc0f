/** The session list component (packages/ui/src/terminal/session_list.rs): the
    time-of-day shown for each session and which item is highlighted.
    Rendering is left out. */
module SessionListUi {
  import opened Wrappers
  import opened RustString
  import opened Contracts

  /** The longest prefix of `s` that holds none of `stops`. */
  function UpTo(s: string, stops: set<char>): (r: string)
    ensures r <= s
    ensures forall i :: 0 <= i < |r| ==> r[i] !in stops
    ensures |r| == |s| || s[|r|] in stops
  {
    if |s| == 0 || s[0] in stops then "" else [s[0]] + UpTo(s[1..], stops)
  }

  /** `UpTo` is the only prefix that is free of `stops` and ends at a stop
      character or at the end. */
  lemma UpToUnique(s: string, stops: set<char>, p: string)
    requires p <= s
    requires forall i :: 0 <= i < |p| ==> p[i] !in stops
    requires |p| == |s| || s[|p|] in stops
    ensures p == UpTo(s, stops)
  {
  }

  /** The first piece of a split is the text up to the first separator. */
  lemma SplitFirstPiece(s: string, c: char)
    ensures Split(s, c)[0] == UpTo(s, {c})
  {
    if c in s {
      var i := IndexOf(s, c);
      UpToUnique(s, {c}, s[..i]);
    } else {
      UpToUnique(s, {c}, s);
    }
  }

  /** `format_time`: the second `'T'`-separated piece cut at its first `'.'`,
      or the input itself when there is no `'T'`. */
  function FormatTime(isoTime: string): string
  {
    var parts := Split(isoTime, 'T');
    if |parts| >= 2 then Split(parts[1], '.')[0] else isoTime
  }

  /** Without a `'T'` the input is shown unchanged. */
  lemma FormatTimeWithoutT(isoTime: string)
    requires 'T' !in isoTime
    ensures FormatTime(isoTime) == isoTime
  {
  }

  /** The second piece of a split is the text after the first separator, up
      to the next one. */
  lemma SplitSecondPiece(s: string, c: char)
    requires c in s
    ensures |Split(s, c)| >= 2
    ensures Split(s, c)[1] == UpTo(s[IndexOf(s, c) + 1..], {c})
  {
    var rest := s[IndexOf(s, c) + 1..];
    assert Split(s, c)[1] == Split(rest, c)[0];
    SplitFirstPiece(rest, c);
  }

  /** Cutting at `'T'` and then at `'.'` is cutting at the first of either. */
  lemma UpToTwice(s: string)
    ensures UpTo(UpTo(s, {'T'}), {'.'}) == UpTo(s, {'T', '.'})
  {
    var piece := UpTo(s, {'T'});
    UpToUnique(s, {'T', '.'}, UpTo(piece, {'.'}));
  }

  /** With a `'T'`, the result is the text after the first `'T'` up to the next
      `'T'` or `'.'`. */
  lemma FormatTimeAfterT(isoTime: string)
    requires 'T' in isoTime
    ensures FormatTime(isoTime) == UpTo(isoTime[IndexOf(isoTime, 'T') + 1..], {'T', '.'})
  {
    var rest := isoTime[IndexOf(isoTime, 'T') + 1..];
    SplitSecondPiece(isoTime, 'T');
    SplitFirstPiece(UpTo(rest, {'T'}), '.');
    UpToTwice(rest);
  }

  /** So with a `'T'` the result holds neither `'T'` nor `'.'`. */
  lemma FormatTimeHasNoSeparators(isoTime: string)
    requires 'T' in isoTime
    ensures 'T' !in FormatTime(isoTime) && '.' !in FormatTime(isoTime)
  {
    FormatTimeAfterT(isoTime);
  }

  /** The result is always a contiguous piece of the input, and no longer. */
  lemma FormatTimeIsSubstring(isoTime: string) returns (i: nat, j: nat)
    ensures i <= j <= |isoTime| && FormatTime(isoTime) == isoTime[i..j]
    ensures |FormatTime(isoTime)| <= |isoTime|
  {
    var r := FormatTime(isoTime);
    if 'T' in isoTime {
      FormatTimeAfterT(isoTime);
      i := IndexOf(isoTime, 'T') + 1;
      var rest := isoTime[i..];
      assert r <= rest;
      j := i + |r|;
      assert r == rest[..|r|];
      assert rest[..|r|] == isoTime[i..j];
    } else {
      FormatTimeWithoutT(isoTime);
      i, j := 0, |isoTime|;
      assert isoTime == isoTime[i..j];
    }
  }

  /** `is_active`: the item's id is the active one. */
  predicate IsActive(activeSessionId: Option<string>, session: SessionInfoDto)
  {
    activeSessionId == Some(session.id)
  }

  /** With distinct ids, at most one item is highlighted, and none when no
      session is active. */
  lemma AtMostOneActive(sessions: seq<SessionInfoDto>, activeSessionId: Option<string>, i: nat, j: nat)
    requires forall a, b :: 0 <= a < b < |sessions| ==> sessions[a].id != sessions[b].id
    requires i < |sessions| && j < |sessions|
    requires IsActive(activeSessionId, sessions[i]) && IsActive(activeSessionId, sessions[j])
    ensures i == j
    ensures activeSessionId == Some(sessions[i].id)
  {
  }
}
