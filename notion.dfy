/** What the sync job writes into a tracking row: the truncated "Latest
    update" property (scripts/sync_okrs.py:82-92) and the log entry appended
    under the log heading (scripts/sync_okrs.py:94-181). */
module Notion {
  import opened PyText

  /** The text of the heading the log entries go under. */
  const Header := "Weekly Linear update log"
  /** A rich-text content limit: the property and each child line are cut to it. */
  const TextLimit: nat := 2000
  /** At most this many child lines per log entry. */
  const MaxChildren: nat := 20

  // ---------------------------------------------------------------------
  // The "Latest update" property

  /** `latest_update[:2000]`: the content written into the property. */
  function LatestUpdateContent(report: string): (r: string)
    ensures |r| <= TextLimit && r <= report
    ensures |report| <= TextLimit ==> r == report
  {
    Take(report, TextLimit)
  }

  /** Writing the same report twice leaves the property as after one write:
      the content of a content is itself. */
  lemma LatestUpdateStable(report: string)
    ensures LatestUpdateContent(LatestUpdateContent(report)) == LatestUpdateContent(report)
  {
    TakeIdempotent(report, TextLimit);
  }

  // ---------------------------------------------------------------------
  // The log entry

  /** `f"{today} — {project_name}"`. */
  function EntryTitle(today: string, name: string): string {
    today + " — " + name
  }

  /** Dates of one length (ISO dates all have ten characters) make the title
      determine both the date and the name; the same day and name always give
      the same title, so a re-run appends an entry with an identical title. */
  lemma EntryTitleDetermines(today1: string, name1: string, today2: string, name2: string)
    requires |today1| == |today2|
    ensures EntryTitle(today1, name1) == EntryTitle(today2, name2) <==> today1 == today2 && name1 == name2
  {
    var t1, t2 := EntryTitle(today1, name1), EntryTitle(today2, name2);
    if t1 == t2 {
      assert today1 == t1[..|today1|] && today2 == t2[..|today2|];
      assert name1 == t1[|today1| + 3..] && name2 == t2[|today2| + 3..];
    }
  }

  /** The stripped, non-empty lines of `ls`, in order
      (`[line.strip() for line in ls if line.strip()]`). */
  function StrippedNonEmpty(ls: seq<string>): (r: seq<string>)
    ensures |r| <= |ls|
    ensures forall i | 0 <= i < |r| :: r[i] != ""
  {
    if ls == [] then []
    else
      var t := Strip(ls[0]);
      var rest := StrippedNonEmpty(ls[1..]);
      if t == [] then rest else [t] + rest
  }

  /** `sublines` of the update text. */
  function SubLines(update: string): seq<string> {
    StrippedNonEmpty(SplitLines(update))
  }

  function CutAll(ls: seq<string>): (r: seq<string>)
    ensures |r| == |ls| && forall i | 0 <= i < |ls| :: r[i] == Take(ls[i], TextLimit)
  {
    if ls == [] then [] else [Take(ls[0], TextLimit)] + CutAll(ls[1..])
  }

  /** The texts of the entry's child bullets: the first 20 sublines, each
      cut to 2000 characters. */
  function LogChildren(update: string): seq<string> {
    CutAll(Take(SubLines(update), MaxChildren))
  }

  /** A line as `strip` leaves it: non-empty, no line break, and no
      whitespace at either end. */
  predicate CleanLine(l: string) {
    l != [] && NoLineBreak(l) && !IsSpace(l[0]) && !IsSpace(l[|l| - 1])
  }

  lemma {:induction false} StrippedNonEmptyFacts(ls: seq<string>)
    requires forall i | 0 <= i < |ls| :: NoLineBreak(ls[i])
    ensures forall l | l in StrippedNonEmpty(ls) :: CleanLine(l)
  {
    if ls != [] {
      StrippedNonEmptyFacts(ls[1..]);
      var t := Strip(ls[0]);
      if t != [] {
        StripKeepsNoBreak(ls[0]);
        StripSpec(ls[0]);
        assert CleanLine(t);
      }
    }
  }

  lemma StripKeepsNoBreak(s: string)
    requires NoLineBreak(s)
    ensures NoLineBreak(Strip(s))
  {
    var t := Strip(s);
    StripSpec(s);
    var a, b :| StrippedSlice(s, t, a, b);
    forall k | 0 <= k < |t| ensures !IsLineBreak(t[k]) {
      assert t[k] == s[a + k];
    }
  }

  /** At most 20 children, each a non-empty prefix of at most 2000 characters
      of the matching subline, without line breaks, starting with a
      non-space character. */
  lemma LogChildrenShape(update: string)
    ensures var c, sub := LogChildren(update), SubLines(update);
      |c| == Min(MaxChildren, |sub|) &&
      forall i | 0 <= i < |c| ::
        c[i] != "" && |c[i]| <= TextLimit && c[i] <= sub[i] &&
        NoLineBreak(c[i]) && !IsSpace(c[i][0])
  {
    var sub := SubLines(update);
    StrippedNonEmptyFacts(SplitLines(update));
    var c := LogChildren(update);
    forall i | 0 <= i < |c|
      ensures c[i] != "" && |c[i]| <= TextLimit && c[i] <= sub[i] && NoLineBreak(c[i]) && !IsSpace(c[i][0])
    {
      assert Take(sub, MaxChildren)[i] == sub[i];
      assert c[i] == Take(sub[i], TextLimit);
      assert sub[i] in sub && CleanLine(sub[i]);
      forall k | 0 <= k < |c[i]| ensures !IsLineBreak(c[i][k]) {
        assert c[i][k] == sub[i][k];
      }
    }
  }

  /** A subline is already stripped: stripping it again changes nothing. */
  lemma SubLinesStripped(update: string)
    ensures forall l | l in SubLines(update) :: Strip(l) == l
  {
    StrippedNonEmptyFacts(SplitLines(update));
    var sub := SubLines(update);
    forall l | l in sub ensures Strip(l) == l {
      var i :| 0 <= i < |sub| && sub[i] == l;
      assert CleanLine(l);
      StripOfStripped(l);
    }
  }

  lemma StripOfStripped(s: string)
    requires s != [] ==> !IsSpace(s[0]) && !IsSpace(s[|s| - 1])
    ensures Strip(s) == s
  {
    assert StripLeft(s) == s;
    assert StripRight(s) == s;
  }

  /** When a text is the `"\n"`-join of break-free lines ending in a
      non-empty one, its sublines are the stripped non-empty lines. */
  lemma SubLinesOfJoin(ls: seq<string>)
    requires forall i | 0 <= i < |ls| :: NoLineBreak(ls[i])
    requires ls != [] ==> ls[|ls| - 1] != ""
    ensures SubLines(Join(ls, "\n")) == StrippedNonEmpty(ls)
  {
    SplitLinesOfJoin(ls);
  }

  /** A line whose first character is not whitespace survives the filter. */
  lemma {:induction false} StrippedNonEmptyKeepsAll(ls: seq<string>)
    requires forall i | 0 <= i < |ls| :: ls[i] != "" && !IsSpace(ls[i][0])
    ensures |StrippedNonEmpty(ls)| == |ls|
    ensures forall i | 0 <= i < |ls| :: StrippedNonEmpty(ls)[i] == Strip(ls[i])
  {
    if ls != [] {
      StripEmptyIff(ls[0]);
      StrippedNonEmptyKeepsAll(ls[1..]);
    }
  }

  /** Up to 20 break-free lines that start with a non-space character,
      joined by newlines, give one child per line: the line stripped and cut
      to 2000 characters. */
  lemma ChildrenOfLines(ls: seq<string>)
    requires |ls| <= MaxChildren
    requires forall i | 0 <= i < |ls| :: ls[i] != "" && NoLineBreak(ls[i]) && !IsSpace(ls[i][0])
    ensures var c := LogChildren(Join(ls, "\n"));
      |c| == |ls| && forall i | 0 <= i < |ls| :: c[i] == Take(Strip(ls[i]), TextLimit)
  {
    SubLinesOfJoin(ls);
    StrippedNonEmptyKeepsAll(ls);
    var sub := SubLines(Join(ls, "\n"));
    assert Take(sub, MaxChildren) == sub;
  }

  // ---------------------------------------------------------------------
  // Finding the log heading among the page's top-level blocks

  /** A top-level block: its id, its `type` (absent: `None`), and the
      `plain_text` fields of its `heading_3.rich_text` items (an item without
      one: `None`). */
  datatype Block = Block(id: string, kind: Option<string>, plainTexts: seq<Option<string>>)

  /** `"".join(x.get("plain_text", "") for x in rich_text)`. */
  function JoinPlain(xs: seq<Option<string>>): string {
    if xs == [] then ""
    else (match xs[0] case None => "" case Some(t) => t) + JoinPlain(xs[1..])
  }

  predicate IsLogHeading(b: Block) {
    b.kind == Some("heading_3") && Strip(JoinPlain(b.plainTexts)) == Header
  }

  /** The id of the first log heading at or after position `i`. */
  function FirstLogHeadingFrom(blocks: seq<Block>, i: nat): Option<string>
    decreases |blocks| - i
  {
    if i >= |blocks| then None
    else if IsLogHeading(blocks[i]) then Some(blocks[i].id)
    else FirstLogHeadingFrom(blocks, i + 1)
  }

  function FirstLogHeading(blocks: seq<Block>): Option<string> {
    FirstLogHeadingFrom(blocks, 0)
  }

  /** Block `k` is the first log heading at or after position `i`. */
  predicate FirstHeadingAt(blocks: seq<Block>, i: int, k: int) {
    0 <= i <= k < |blocks| && IsLogHeading(blocks[k]) &&
    forall j | i <= j < k :: !IsLogHeading(blocks[j])
  }

  /** None exactly when no block is the log heading; otherwise the id of the
      first block that is. */
  lemma {:induction false} FirstLogHeadingFromSpec(blocks: seq<Block>, i: nat)
    requires i <= |blocks|
    ensures var r := FirstLogHeadingFrom(blocks, i);
      (r.None? <==> forall j | i <= j < |blocks| :: !IsLogHeading(blocks[j])) &&
      (r.Some? ==> exists k :: FirstHeadingAt(blocks, i, k) && blocks[k].id == r.value)
    decreases |blocks| - i
  {
    if i == |blocks| {
    } else if IsLogHeading(blocks[i]) {
      assert FirstHeadingAt(blocks, i, i);
    } else {
      FirstLogHeadingFromSpec(blocks, i + 1);
      var r := FirstLogHeadingFrom(blocks, i);
      assert r == FirstLogHeadingFrom(blocks, i + 1);
      if r.Some? {
        var k :| FirstHeadingAt(blocks, i + 1, k) && blocks[k].id == r.value;
        assert FirstHeadingAt(blocks, i, k);
      }
    }
  }

  /** The search loop of `notion_append_weekly_log_blocks`: the first
      `heading_3` whose joined, stripped text is the log header. */
  method FindLogHeading(blocks: seq<Block>) returns (id: Option<string>)
    ensures id == FirstLogHeading(blocks)
    ensures id.None? <==> forall j | 0 <= j < |blocks| :: !IsLogHeading(blocks[j])
  {
    FirstLogHeadingFromSpec(blocks, 0);
    id := None;
    var i := 0;
    while i < |blocks|
      invariant 0 <= i <= |blocks|
      invariant FirstLogHeadingFrom(blocks, i) == FirstLogHeading(blocks)
    {
      var b := blocks[i];
      if b.kind == Some("heading_3") {
        var text := Strip(JoinPlain(b.plainTexts));
        if text == Header {
          id := Some(b.id);
          break;
        }
      }
      i := i + 1;
    }
  }

  // ---------------------------------------------------------------------
  // Creating the heading when it is missing

  /** The heading the create request appends at the end of the page; its id
      is assigned by the server. */
  function NewHeading(newId: string): Block {
    Block(newId, Some("heading_3"), [Some(Header)])
  }

  /** The refetch after creating the heading reads one listing page. */
  const RefetchSize: nat := 100

  /** Whether a heading was created, and the id of the heading the entry
      goes under (`None`: `Could not create/find ...` is raised). */
  datatype Resolution = Resolution(createdHeading: bool, headingId: Option<string>)

  /** Steps 2 and 3 as written: search the listed blocks; when the heading is
      missing, create it and search the first page of the refetched children. */
  function ResolveHeadingAsWritten(blocks: seq<Block>, newId: string): Resolution {
    match FirstLogHeading(blocks)
    case Some(id) => Resolution(false, Some(id))
    case None => Resolution(true, FirstLogHeading(Take(blocks + [NewHeading(newId)], RefetchSize)))
  }

  /** Steps 2 and 3 with the refetch reading every block of the page. */
  function ResolveHeading(blocks: seq<Block>, newId: string): Resolution {
    match FirstLogHeading(blocks)
    case Some(id) => Resolution(false, Some(id))
    case None => Resolution(true, FirstLogHeading(blocks + [NewHeading(newId)]))
  }

  /** Steps 2 and 3 with the corrected refetch: the search loop over the
      listed blocks and, when it finds nothing, over the page with the new
      heading at its end. */
  method ResolveLogHeading(blocks: seq<Block>, newId: string) returns (res: Resolution)
    ensures res == ResolveHeading(blocks, newId)
  {
    var id := FindLogHeading(blocks);
    if id.Some? {
      return Resolution(false, id);
    }
    id := FindLogHeading(blocks + [NewHeading(newId)]);
    return Resolution(true, id);
  }

  lemma NewHeadingIsLogHeading(newId: string)
    ensures IsLogHeading(NewHeading(newId))
  {
    assert JoinPlain([Some(Header)]) == Header;
    StripOfStripped(Header);
  }

  /** A heading is created exactly when none is present; the entry then goes
      under the new heading, and otherwise under the first existing one. The
      id is always found. */
  lemma ResolveHeadingSpec(blocks: seq<Block>, newId: string)
    ensures var r := ResolveHeading(blocks, newId);
      r.headingId.Some? &&
      (r.createdHeading <==> forall j | 0 <= j < |blocks| :: !IsLogHeading(blocks[j])) &&
      (r.createdHeading ==> r.headingId == Some(newId)) &&
      (!r.createdHeading ==> r.headingId == FirstLogHeading(blocks))
  {
    FirstLogHeadingFromSpec(blocks, 0);
    if FirstLogHeading(blocks).None? {
      NewHeadingIsLogHeading(newId);
      FirstAfterNone(blocks, NewHeading(newId));
    }
  }

  /** Appending a log heading to blocks that hold none makes it the first. */
  lemma FirstAfterNone(blocks: seq<Block>, h: Block)
    requires forall j | 0 <= j < |blocks| :: !IsLogHeading(blocks[j])
    requires IsLogHeading(h)
    ensures FirstLogHeading(blocks + [h]) == Some(h.id)
  {
    var all := blocks + [h];
    FirstLogHeadingFromSpec(all, 0);
    assert forall j | 0 <= j < |blocks| :: all[j] == blocks[j];
    assert IsLogHeading(all[|blocks|]);
    var k :| FirstHeadingAt(all, 0, k) && all[k].id == FirstLogHeading(all).value;
    assert k == |blocks|;
  }

  /** On a page with fewer than 100 top-level blocks the written code and
      the corrected one agree. */
  lemma ResolveAgreesOnSmallPages(blocks: seq<Block>, newId: string)
    requires |blocks| < RefetchSize
    ensures ResolveHeadingAsWritten(blocks, newId) == ResolveHeading(blocks, newId)
  {
    var all := blocks + [NewHeading(newId)];
    assert Take(all, RefetchSize) == all;
  }

  /** On a page with 100 or more top-level blocks and no log heading, the
      written code creates the heading, does not see it among the first 100
      refetched blocks, and fails. */
  lemma RefetchMissesNewHeading(blocks: seq<Block>, newId: string)
    requires |blocks| >= RefetchSize
    requires forall j | 0 <= j < |blocks| :: !IsLogHeading(blocks[j])
    ensures ResolveHeadingAsWritten(blocks, newId) == Resolution(true, None)
  {
    FirstLogHeadingFromSpec(blocks, 0);
    var first := Take(blocks + [NewHeading(newId)], RefetchSize);
    assert forall j | 0 <= j < |first| :: first[j] == blocks[j];
    FirstLogHeadingFromSpec(first, 0);
  }

  /** A concrete page: one hundred paragraphs and no heading. */
  lemma HundredParagraphsFail()
    ensures ResolveHeadingAsWritten(seq(100, _ => Block("p", Some("paragraph"), [])), "h").headingId.None?
  {
    RefetchMissesNewHeading(seq(100, _ => Block("p", Some("paragraph"), [])), "h");
  }
}
