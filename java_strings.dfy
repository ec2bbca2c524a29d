/**
  The three java.lang.String operations the path filter relies on, restricted
  to the way it calls them: split("/"), indexOf('/', from) and
  regionMatches(offset, other, 0, other.length()).
 */
module JavaStrings {

  /** Parts joined back together with a '/' between neighbours. */
  function Join(parts: seq<string>): string
  {
    if |parts| == 0 then ""
    else if |parts| == 1 then parts[0]
    else parts[0] + "/" + Join(parts[1..])
  }

  lemma {:induction false} JoinSnoc(parts: seq<string>, last: string)
    requires parts != []
    ensures Join(parts + [last]) == Join(parts) + "/" + last
  {
    if |parts| == 1 {
      assert (parts + [last])[1..] == [last];
    } else {
      assert (parts + [last])[1..] == parts[1..] + [last];
      JoinSnoc(parts[1..], last);
    }
  }

  /**
    The raw split of s at every '/': one part more than s has slashes, no
    part holds a slash, and joining the parts gives s back.
   */
  function Segments(s: string): (parts: seq<string>)
    ensures |parts| >= 1
    ensures forall k :: 0 <= k < |parts| ==> '/' !in parts[k]
    ensures Join(parts) == s
  {
    if s == [] then [""]
    else
      var rest := Segments(s[1..]);
      if s[0] == '/' then
        assert ([""] + rest)[1..] == rest;
        [""] + rest
      else
        var first := [s[0]] + rest[0];
        var parts := [first] + rest[1..];
        assert Join(parts) == [s[0]] + Join(rest) by {
          if |rest| > 1 {
            assert parts[1..] == rest[1..];
            assert Join(rest) == rest[0] + "/" + Join(rest[1..]);
          }
        }
        parts
  }

  /** A slash-free text before a '/' is one part of the raw split. */
  lemma {:induction false} SegmentsAfterSlash(a: string, b: string)
    requires '/' !in a
    ensures Segments(a + "/" + b) == [a] + Segments(b)
  {
    var s := a + "/" + b;
    if a == [] {
      assert s[1..] == b;
    } else {
      assert s[1..] == a[1..] + "/" + b;
      SegmentsAfterSlash(a[1..], b);
      assert [s[0]] + a[1..] == a;
    }
  }

  /** Splitting undoes joining: the raw split of joined slash-free parts gives those parts. */
  lemma {:induction false} SegmentsOfJoin(parts: seq<string>)
    requires |parts| >= 1
    requires forall k :: 0 <= k < |parts| ==> '/' !in parts[k]
    ensures Segments(Join(parts)) == parts
  {
    if |parts| == 1 {
      SegmentsWithoutSlash(parts[0]);
    } else {
      var tail := parts[1..];
      assert forall k :: 0 <= k < |tail| ==> tail[k] == parts[k + 1];
      SegmentsOfJoin(tail);
      SegmentsAfterSlash(parts[0], Join(tail));
      assert parts == [parts[0]] + tail;
    }
  }

  lemma SegmentsWithoutSlash(s: string)
    requires '/' !in s
    ensures Segments(s) == [s]
  {
  }

  /** Drops the empty parts at the end, as split does with a zero limit. */
  function DropTrailingEmpty(parts: seq<string>): (r: seq<string>)
    ensures r <= parts
    ensures r == [] || r[|r| - 1] != ""
    ensures forall k :: |r| <= k < |parts| ==> parts[k] == ""
  {
    if parts == [] then []
    else if parts[|parts| - 1] == "" then DropTrailingEmpty(parts[..|parts| - 1])
    else parts
  }

  /**
    s.split("/"): when s holds no slash, the one-element array [s] (so ""
    gives [""]); otherwise the raw parts with every trailing empty part
    removed (so "/" gives [] and "/a" gives ["", "a"]).
   */
  function Split(s: string): (parts: seq<string>)
    ensures parts <= Segments(s)
    ensures forall k :: |parts| <= k < |Segments(s)| ==> Segments(s)[k] == ""
    ensures '/' in s ==> parts == [] || parts[|parts| - 1] != ""
    ensures '/' !in s ==> parts == [s]
    ensures forall k :: 0 <= k < |parts| ==> '/' !in parts[k]
  {
    if '/' !in s then
      SegmentsWithoutSlash(s);
      [s]
    else DropTrailingEmpty(Segments(s))
  }

  /**
    split("/") undoes Join on slash-free parts, provided the last part is not
    empty (split drops trailing empty parts) or there is only one part.
   */
  lemma SplitOfJoin(parts: seq<string>)
    requires |parts| >= 1
    requires forall k :: 0 <= k < |parts| ==> '/' !in parts[k]
    requires |parts| == 1 || parts[|parts| - 1] != ""
    ensures Split(Join(parts)) == parts
  {
    SegmentsOfJoin(parts);
    if |parts| > 1 {
      assert Join(parts) == parts[0] + "/" + Join(parts[1..]);
      assert Join(parts)[|parts[0]|] == '/';
    }
  }

  /**
    s.indexOf(c, from): the first position at or after from that holds c,
    or -1 when there is none.
   */
  function IndexOf(s: string, c: char, from: nat): (j: int)
    ensures j == -1 || (from <= j < |s| && s[j] == c)
    ensures j == -1 ==> forall k :: from <= k < |s| ==> s[k] != c
    ensures j != -1 ==> forall k :: from <= k < j ==> s[k] != c
    decreases |s| - from
  {
    if from >= |s| then -1
    else if s[from] == c then from
    else IndexOf(s, c, from + 1)
  }

  /** Any position holding c with no earlier c from `from` on is what IndexOf finds. */
  lemma IndexOfFinds(s: string, c: char, from: nat, j: nat)
    requires from <= j < |s| && s[j] == c
    requires forall k :: from <= k < j ==> s[k] != c
    ensures IndexOf(s, c, from) == j
  {
  }

  /**
    s.regionMatches(offset, other, 0, other.length()): other occurs in s
    starting at offset; false when fewer than |other| characters remain.
   */
  predicate RegionMatches(s: string, offset: nat, other: string)
    ensures RegionMatches(s, offset, other) <==> offset <= |s| && other <= s[offset..]
  {
    offset + |other| <= |s| && s[offset..offset + |other|] == other
  }
}
