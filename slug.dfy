/** The project slug inside a tracker project URL
    (`linear_slug_from_project_url`, scripts/sync_okrs.py:31-34): the first
    match of `/project/([^/?#]+)`, scanning left to right. */
module Slug {
  import opened PyText

  const Marker := "/project/"

  /** The characters the slug's character class excludes. */
  predicate IsSep(c: char) {
    c == '/' || c == '?' || c == '#'
  }

  predicate NoSep(s: string) {
    forall k | 0 <= k < |s| :: !IsSep(s[k])
  }

  /** The length of the longest separator-free prefix of `s` (the greedy
      `[^/?#]+`). */
  function RunLen(s: string): (n: nat)
    ensures n <= |s| && NoSep(s[..n])
    ensures n < |s| ==> IsSep(s[n])
  {
    if s == [] || IsSep(s[0]) then 0
    else
      var n := RunLen(s[1..]);
      assert s[..n + 1] == [s[0]] + s[1..][..n];
      n + 1
  }

  /** The pattern matches at `i`: the marker starts there and at least one
      non-separator character follows it. */
  predicate MatchAt(s: string, i: int) {
    0 <= i && i + |Marker| < |s| && OccursAt(s, Marker, i) && !IsSep(s[i + |Marker|])
  }

  /** Group 1 of the match at `i`. */
  function Group(s: string, i: nat): string
    requires i + |Marker| <= |s|
  {
    var tail := s[i + |Marker|..];
    tail[..RunLen(tail)]
  }

  /** The regex search from position `i` on. */
  function SearchFrom(s: string, i: nat): Option<string>
    decreases |s| - i
  {
    if i + |Marker| >= |s| then None
    else if MatchAt(s, i) then Some(Group(s, i))
    else SearchFrom(s, i + 1)
  }

  /** `linear_slug_from_project_url(url)`; a missing URL searches `""`. */
  function SlugFromUrl(url: Option<string>): Option<string> {
    SearchFrom(match url case None => "" case Some(u) => u, 0)
  }

  /** The group at a match is non-empty, free of separators, and runs up to
      the end of the text or to a separator. */
  lemma GroupShape(s: string, i: nat)
    requires MatchAt(s, i)
    ensures var g := Group(s, i); var e := i + |Marker| + |g|;
      g != [] && NoSep(g) && e <= |s| && s[i + |Marker|..e] == g && (e < |s| ==> IsSep(s[e]))
  {
    var tail := s[i + |Marker|..];
    assert tail[0] == s[i + |Marker|];
  }

  /** The search finds nothing exactly when the pattern matches nowhere at
      or after `i`, and otherwise returns the group of the leftmost match. */
  lemma {:induction false} SearchFromSpec(s: string, i: nat)
    ensures var r := SearchFrom(s, i);
      (r.None? <==> forall j | i <= j :: !MatchAt(s, j)) &&
      (r.Some? ==> exists k | i <= k < |s| ::
        (MatchAt(s, k) && r.value == Group(s, k) && forall j | i <= j < k :: !MatchAt(s, j)))
    decreases |s| - i
  {
    if i + |Marker| < |s| && !MatchAt(s, i) {
      SearchFromSpec(s, i + 1);
      var r := SearchFrom(s, i);
      if r.Some? {
        var k :| i + 1 <= k < |s| && MatchAt(s, k) && r.value == Group(s, k) &&
          forall j | i + 1 <= j < k :: !MatchAt(s, j);
        assert forall j | i <= j < k :: !MatchAt(s, j);
      } else {
        assert forall j | i <= j :: !MatchAt(s, j);
      }
    }
  }

  /** No slug exactly when the URL (or `""` for a missing one) has no match;
      a slug found is non-empty and free of `/`, `?` and `#`. */
  lemma SlugSpec(url: Option<string>)
    ensures var s := match url case None => "" case Some(u) => u;
      var r := SlugFromUrl(url);
      (r.None? <==> forall j | 0 <= j :: !MatchAt(s, j)) &&
      (r.Some? ==> r.value != [] && NoSep(r.value))
  {
    var s := match url case None => "" case Some(u) => u;
    SearchFromSpec(s, 0);
    var r := SlugFromUrl(url);
    if r.Some? {
      var k :| 0 <= k < |s| && MatchAt(s, k) && r.value == Group(s, k) &&
        forall j | 0 <= j < k :: !MatchAt(s, j);
      GroupShape(s, k);
    }
  }

  /** Round trip: a URL made of a prefix, the marker, a slug and a remainder
      that starts at a separator yields that slug, provided the marker does
      not occur earlier (also not straddling the prefix and the marker). */
  lemma SlugOfUrl(prefix: string, slug: string, rest: string)
    requires forall j | 0 <= j < |prefix| :: !OccursAt(prefix + Marker, Marker, j)
    requires slug != [] && NoSep(slug)
    requires rest != [] ==> IsSep(rest[0])
    ensures SlugFromUrl(Some(prefix + Marker + slug + rest)) == Some(slug)
  {
    var s := prefix + Marker + slug + rest;
    var i := |prefix|;
    var head := prefix + Marker;
    assert s[..|head|] == head;
    forall j | 0 <= j < i ensures !OccursAt(s, Marker, j) {
      assert !OccursAt(head, Marker, j);
      assert j + |Marker| <= |head|;
      assert s[j..j + |Marker|] == head[j..j + |Marker|];
    }
    assert s[i..i + |Marker|] == Marker;
    assert s[i + |Marker|] == slug[0];
    assert MatchAt(s, i);
    SkipTo(s, 0, i);
    var tail := s[i + |Marker|..];
    assert tail == slug + rest;
    assert tail[..|slug|] == slug;
    RunLenOf(slug, rest);
  }

  lemma {:induction false} SkipTo(s: string, j: nat, i: nat)
    requires j <= i && forall k | j <= k < i :: !MatchAt(s, k)
    requires MatchAt(s, i)
    ensures SearchFrom(s, j) == Some(Group(s, i))
    decreases i - j
  {
    if j < i {
      SkipTo(s, j + 1, i);
    }
  }

  lemma {:induction false} RunLenOf(slug: string, rest: string)
    requires NoSep(slug)
    requires rest != [] ==> IsSep(rest[0])
    ensures RunLen(slug + rest) == |slug|
  {
    if slug != [] {
      assert (slug + rest)[1..] == slug[1..] + rest;
      RunLenOf(slug[1..], rest);
    }
  }
}
