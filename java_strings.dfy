/** String.split with a literal delimiter, as Java gives it: `s.split(regex)` with a regex
    that holds no metacharacter (such as "/o/") splits around the leftmost non-overlapping
    occurrences of the delimiter, keeps a leading empty part, drops the trailing empty
    parts, and returns `[s]` itself when the delimiter does not occur at all. */
module JavaStrings {

  /** `d` occurs in `s` at position `i`. */
  predicate OccursAt(s: string, d: string, i: int) {
    0 <= i && i + |d| <= |s| && s[i..i + |d|] == d
  }

  predicate Contains(s: string, d: string) {
    exists i :: 0 <= i <= |s| && OccursAt(s, d, i)
  }

  /** String.indexOf: the first position of `d` in `s`, or -1. */
  function IndexOf(s: string, d: string): (r: int)
    ensures -1 <= r <= |s|
    ensures r == -1 <==> !Contains(s, d)
    ensures r >= 0 ==> OccursAt(s, d, r) && forall j :: 0 <= j < r ==> !OccursAt(s, d, j)
  {
    if |s| < |d| then
      -1
    else if s[..|d|] == d then
      assert OccursAt(s, d, 0);
      0
    else
      var j := IndexOf(s[1..], d);
      ShiftOccurrence(s, d);
      assert s[0..|d|] == s[..|d|];
      assert !OccursAt(s, d, 0);
      assert j >= 0 ==> OccursAt(s, d, j + 1);
      if j < 0 then -1 else j + 1
  }

  /** An occurrence after the first character of `s` is an occurrence in `s[1..]`. */
  lemma ShiftOccurrence(s: string, d: string)
    requires s != []
    ensures forall j :: 1 <= j ==> (OccursAt(s, d, j) <==> OccursAt(s[1..], d, j - 1))
  {
    forall j | 1 <= j
      ensures OccursAt(s, d, j) <==> OccursAt(s[1..], d, j - 1)
    {
      if j + |d| <= |s| {
        assert s[1..][j - 1..j - 1 + |d|] == s[j..j + |d|];
      }
    }
  }

  /** The parts of `s` around each leftmost non-overlapping occurrence of `d`. */
  function Segments(s: string, d: string): (parts: seq<string>)
    requires d != []
    ensures |parts| >= 1
    ensures Join(parts, d) == s
    ensures forall k :: 0 <= k < |parts| ==> !Contains(parts[k], d)
    decreases |s|
  {
    var i := IndexOf(s, d);
    if i < 0 then
      [s]
    else
      var tail := Segments(s[i + |d|..], d);
      PrefixBeforeFirstOccurrence(s, d, i);
      assert s == s[..i] + d + s[i + |d|..];
      [s[..i]] + tail
  }

  /** Nothing before the first occurrence holds an occurrence. */
  lemma PrefixBeforeFirstOccurrence(s: string, d: string, i: int)
    requires d != [] && 0 <= i <= |s|
    requires forall j :: 0 <= j < i ==> !OccursAt(s, d, j)
    ensures !Contains(s[..i], d)
  {
    forall j | OccursAt(s[..i], d, j)
      ensures false
    {
      assert s[..i][j..j + |d|] == s[j..j + |d|];
      assert OccursAt(s, d, j);
    }
  }

  /** The parts put back together with `d` between them. */
  function Join(parts: seq<string>, d: string): string
    requires |parts| >= 1
  {
    if |parts| == 1 then parts[0] else parts[0] + d + Join(parts[1..], d)
  }

  /** The parts without their trailing empty ones. */
  function DropTrailingEmpty(parts: seq<string>): (r: seq<string>)
    ensures |r| <= |parts| && r == parts[..|r|]
    ensures r == [] || r[|r| - 1] != []
    ensures forall k :: |r| <= k < |parts| ==> parts[k] == []
  {
    if parts == [] || parts[|parts| - 1] != [] then parts
    else DropTrailingEmpty(parts[..|parts| - 1])
  }

  /** s.split(d) with limit 0. */
  function Split(s: string, d: string): seq<string>
    requires d != []
  {
    if !Contains(s, d) then [s] else DropTrailingEmpty(Segments(s, d))
  }

  /** When the delimiter occurs exactly once, at `i`, and something follows it, split
      gives the two sides. */
  lemma {:induction false} SplitOnce(s: string, d: string, i: nat)
    requires d != [] && OccursAt(s, d, i)
    requires forall j :: 0 <= j < i ==> !OccursAt(s, d, j)
    requires !Contains(s[i + |d|..], d) && i + |d| < |s|
    ensures Split(s, d) == [s[..i], s[i + |d|..]]
  {
    assert IndexOf(s, d) == i;
    assert Segments(s[i + |d|..], d) == [s[i + |d|..]];
  }

  /** When the only occurrence of the delimiter ends the text, the empty part after it
      is dropped and split gives one part. */
  lemma {:induction false} SplitEndingInDelimiter(s: string, d: string)
    requires d != [] && s != []
    requires forall j :: 0 <= j < |s| ==> !OccursAt(s + d, d, j)
    ensures Split(s + d, d) == [s]
  {
    var t := s + d;
    assert OccursAt(t, d, |s|);
    assert IndexOf(t, d) == |s|;
    assert t[..|s|] == s && t[|s| + |d|..] == [];
    assert Segments([], d) == [[]];
    assert Segments(t, d) == [s, []];
  }

  /** An occurrence in a suffix of `s` is an occurrence in `s`, shifted. */
  lemma OccursInSuffix(s: string, d: string, i: nat, j: int)
    requires i <= |s|
    ensures OccursAt(s[i..], d, j) <==> 0 <= j && OccursAt(s, d, i + j)
  {
    if 0 <= j && i + j + |d| <= |s| {
      assert s[i..][j..j + |d|] == s[i + j..i + j + |d|];
    }
  }

  /** The first occurrence is the one IndexOf finds. */
  lemma IndexOfFirst(s: string, d: string, i: nat)
    requires OccursAt(s, d, i) && forall j :: 0 <= j < i ==> !OccursAt(s, d, j)
    ensures IndexOf(s, d) == i
  {
  }

  /** Segments cuts at the first occurrence and goes on after it. */
  lemma SegmentsAt(s: string, d: string, i: nat)
    requires d != [] && OccursAt(s, d, i) && forall j :: 0 <= j < i ==> !OccursAt(s, d, j)
    ensures Segments(s, d) == [s[..i]] + Segments(s[i + |d|..], d)
  {
    IndexOfFirst(s, d, i);
  }

  /** No occurrence in `s` between `from` and `to` means none in `s[from..]` before `to - from`. */
  lemma NoOccurrenceInSuffix(s: string, d: string, from: nat, to: nat)
    requires from <= to <= |s|
    requires forall j :: from <= j < to ==> !OccursAt(s, d, j)
    ensures forall j :: 0 <= j < to - from ==> !OccursAt(s[from..], d, j)
  {
    forall j | 0 <= j < to - from
      ensures !OccursAt(s[from..], d, j)
    {
      OccursInSuffix(s, d, from, j);
    }
  }

  /** A single occurrence cuts the text in two. */
  lemma SegmentsOnce(s: string, d: string, i: nat)
    requires d != [] && OccursAt(s, d, i) && forall j :: 0 <= j < i ==> !OccursAt(s, d, j)
    requires !Contains(s[i + |d|..], d)
    ensures Segments(s, d) == [s[..i], s[i + |d|..]]
  {
    SegmentsAt(s, d, i);
  }

  /** Exactly two occurrences, at `i` and at `k`, cut the text in three. */
  lemma {:induction false} SegmentsTwice(s: string, d: string, i: nat, k: nat)
    requires d != [] && OccursAt(s, d, i) && OccursAt(s, d, k) && i + |d| <= k
    requires forall j :: 0 <= j < i ==> !OccursAt(s, d, j)
    requires forall j :: i + |d| <= j < k ==> !OccursAt(s, d, j)
    requires !Contains(s[k + |d|..], d)
    ensures Segments(s, d) == [s[..i], s[i + |d|..k], s[k + |d|..]]
  {
    var u := s[i + |d|..];
    var k' := k - i - |d|;
    OccursInSuffix(s, d, i + |d|, k');
    NoOccurrenceInSuffix(s, d, i + |d|, k);
    assert u[k' + |d|..] == s[k + |d|..] && u[..k'] == s[i + |d|..k];
    SegmentsOnce(u, d, k');
    SegmentsAt(s, d, i);
  }

  /** When the delimiter occurs exactly twice, at `i` and at `k`, and something follows the
      second occurrence, split gives three parts. */
  lemma {:induction false} SplitTwice(s: string, d: string, i: nat, k: nat)
    requires d != [] && OccursAt(s, d, i) && OccursAt(s, d, k) && i + |d| <= k
    requires forall j :: 0 <= j < i ==> !OccursAt(s, d, j)
    requires forall j :: i + |d| <= j < k ==> !OccursAt(s, d, j)
    requires !Contains(s[k + |d|..], d) && k + |d| < |s|
    ensures Split(s, d) == [s[..i], s[i + |d|..k], s[k + |d|..]]
  {
    SegmentsTwice(s, d, i, k);
    assert Contains(s, d) by {
      assert OccursAt(s, d, i);
    }
    var parts := Segments(s, d);
    assert parts[|parts| - 1] != [];
  }

  /** When the second of exactly two occurrences ends the text, the empty part after it
      is dropped and split gives the two parts before it. */
  lemma {:induction false} SplitTwiceEndingInDelimiter(s: string, d: string, i: nat, k: nat)
    requires d != [] && OccursAt(s, d, i) && OccursAt(s, d, k) && i + |d| < k
    requires forall j :: 0 <= j < i ==> !OccursAt(s, d, j)
    requires forall j :: i + |d| <= j < k ==> !OccursAt(s, d, j)
    requires k + |d| == |s|
    ensures Split(s, d) == [s[..i], s[i + |d|..k]]
  {
    assert s[k + |d|..] == [];
    SegmentsTwice(s, d, i, k);
    assert Contains(s, d) by {
      assert OccursAt(s, d, i);
    }
    var parts := Segments(s, d);
    assert parts[..2] == [s[..i], s[i + |d|..k]];
    assert DropTrailingEmpty(parts) == DropTrailingEmpty(parts[..2]);
  }

  /** A text without the first character of the delimiter does not contain it. */
  lemma WithoutFirstCharNoOccurrence(s: string, d: string)
    requires d != [] && d[0] !in s
    ensures !Contains(s, d)
  {
  }
}
