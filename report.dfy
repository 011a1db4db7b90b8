/** `format_exec_update` (scripts/sync_okrs.py:262-302): the short report
    written back to the tracking row. */
module ExecReport {
  import opened PyText
  import opened Linear
  import opened Buckets
  import opened Ranking

  /** The project update body is cut to this many characters. */
  const BodyLimit: nat := 400
  /** `top_titles` is called with its default `n`. */
  const TitleCount: nat := 3

  /** One line of the report, before it is rendered as text. */
  datatype Line =
    | Recent(update: Option<ProjectUpdate>)
    | Completed(done: nat, review: nat)
    | Top(bucket: Bucket, titles: seq<string>)
    | Ongoing(inProgress: nat)
    | Readout(status: Option<string>, health: Option<string>)

  /** The body as printed: its first 400 characters with every two-character
      backslash-n replaced by a space. */
  function ShownBody(body: string): string {
    Replace(Take(body, BodyLimit), EscapedNewline, " ")
  }

  function BucketLabel(b: Bucket): string {
    match b
    case Done => "Done"
    case InReview => "In Review"
    case InProgress => "In Progress"
    case Other => "Other"
  }

  /** The text of each line, as the f-strings of the report spell it. */
  function Render(l: Line): string {
    match l
    case Recent(None) => "Most recent update: " + "No project update found in Linear."
    case Recent(Some(u)) =>
      "Most recent update: " + u.author + " (" + u.createdAt + "): " + ShownBody(u.body)
    case Completed(d, r) =>
      "Most recently completed (counts): Done=" + Decimal(d) + "; In Review=" + Decimal(r)
    case Top(b, ts) => "Top " + BucketLabel(b) + " titles: " + Join(ts, "; ")
    case Ongoing(n) => "Current ongoing work (counts): In Progress=" + Decimal(n)
    case Readout(st, h) => "Leadership readout: status=" + Show(st) + "; health=" + Show(h)
  }

  function RenderAll(ls: seq<Line>): (r: seq<string>)
    ensures |r| == |ls| && forall i | 0 <= i < |ls| :: r[i] == Render(ls[i])
  {
    if ls == [] then [] else [Render(ls[0])] + RenderAll(ls[1..])
  }

  /** `projectUpdates.nodes[0]`, if there is one. */
  function FirstUpdate(p: Project): Option<ProjectUpdate> {
    if |p.updates| > 0 then Some(p.updates[0]) else None
  }

  /** The elements of `s` that `keep` accepts, in order (a list
      comprehension with a condition). */
  function Select<T>(s: seq<T>, keep: T -> bool): (r: seq<T>)
    ensures |r| <= |s|
  {
    if s == [] then []
    else (if keep(s[0]) then [s[0]] else []) + Select(s[1..], keep)
  }

  /** The issues of `s` that fall in bucket `b`, in input order. */
  function InBucket(s: seq<Issue>, b: Bucket): (r: seq<Issue>)
    ensures |r| <= |s|
  {
    Select(s, it => BucketOf(it) == b)
  }

  function Count(issues: seq<Issue>, b: Bucket): nat {
    |InBucket(issues, b)|
  }

  /** The three lists the report loop fills: done, in review, in progress. */
  datatype Tally = Tally(done: seq<Issue>, inReview: seq<Issue>, inProgress: seq<Issue>)

  function TallyOf(issues: seq<Issue>): Tally {
    Tally(InBucket(issues, Done), InBucket(issues, InReview), InBucket(issues, InProgress))
  }

  /** The "Top ... titles" line for the issues `sel` of bucket `b`, present
      only when there are titles. */
  function TopLine(sel: seq<Issue>, b: Bucket): seq<Line> {
    var ts := TopTitles(sel, TitleCount);
    if ts == [] then [] else [Top(b, ts)]
  }

  /** The report's lines in the order they are appended. */
  function LinesOf(p: Project, t: Tally): seq<Line> {
    [Recent(FirstUpdate(p)), Completed(|t.done|, |t.inReview|)]
    + TopLine(t.done, Done) + TopLine(t.inReview, InReview)
    + [Ongoing(|t.inProgress|)] + TopLine(t.inProgress, InProgress)
    + [Readout(p.state, p.health)]
  }

  function ReportLines(p: Project, issues: seq<Issue>): seq<Line> {
    LinesOf(p, TallyOf(issues))
  }

  /** `"\n".join(lines)`. */
  function ExecReport(p: Project, issues: seq<Issue>): string {
    Join(RenderAll(ReportLines(p, issues)), "\n")
  }

  lemma {:induction false} SelectMembers<T>(s: seq<T>, keep: T -> bool)
    ensures forall x | x in Select(s, keep) :: x in s && keep(x)
  {
    if s != [] {
      SelectMembers(s[1..], keep);
    }
  }

  /** The list of bucket `b` holds only input issues of bucket `b`. */
  lemma InBucketMembers(s: seq<Issue>, b: Bucket)
    ensures forall it | it in InBucket(s, b) :: it in s && BucketOf(it) == b
  {
    SelectMembers(s, it => BucketOf(it) == b);
  }

  lemma {:induction false} SelectSnoc<T>(s: seq<T>, x: T, keep: T -> bool)
    ensures Select(s + [x], keep) == Select(s, keep) + (if keep(x) then [x] else [])
  {
    var last := if keep(x) then [x] else [];
    if s != [] {
      var t := s[1..];
      var head := if keep(s[0]) then [s[0]] else [];
      assert (s + [x])[0] == s[0];
      assert (s + [x])[1..] == t + [x];
      SelectSnoc(t, x, keep);
      assert Select(s + [x], keep) == head + (Select(t, keep) + last);
    } else {
      assert [] + [x] == [x];
      assert Select([x], keep) == last + Select([], keep);
    }
  }

  lemma InBucketSnoc(s: seq<Issue>, x: Issue, b: Bucket)
    ensures InBucket(s + [x], b) == InBucket(s, b) + (if BucketOf(x) == b then [x] else [])
  {
    SelectSnoc(s, x, it => BucketOf(it) == b);
  }

  /** The loop of `format_exec_update` that sorts the issues into the done,
      in-review and in-progress lists in one pass; "other" issues are dropped. */
  method TallyIssues(issues: seq<Issue>) returns (t: Tally)
    ensures t == TallyOf(issues)
  {
    var done: seq<Issue> := [];
    var inReview: seq<Issue> := [];
    var inProgress: seq<Issue> := [];
    for i := 0 to |issues|
      invariant done == InBucket(issues[..i], Done)
      invariant inReview == InBucket(issues[..i], InReview)
      invariant inProgress == InBucket(issues[..i], InProgress)
    {
      var it := issues[i];
      assert issues[..i + 1] == issues[..i] + [it];
      InBucketSnoc(issues[..i], it, Done);
      InBucketSnoc(issues[..i], it, InReview);
      InBucketSnoc(issues[..i], it, InProgress);
      var bucket := BucketOf(it);
      if bucket == Done {
        done := done + [it];
      } else if bucket == InReview {
        inReview := inReview + [it];
      } else if bucket == InProgress {
        inProgress := inProgress + [it];
      }
    }
    assert issues[..|issues|] == issues;

    t := Tally(done, inReview, inProgress);
  }

  /** `format_exec_update(project, issues)`: the bucketing loop, the three
      title lists, then the report lines appended one by one and joined with
      newlines. Each line is collected as its `Line` value; its text is
      `Render` of that value. */
  method FormatExecUpdate(p: Project, issues: seq<Issue>) returns (report: string)
    ensures report == ExecReport(p, issues)
  {
    var tally := TallyIssues(issues);
    var done, inReview, inProgress := tally.done, tally.inReview, tally.inProgress;

    var doneTitles := TopTitles(done, TitleCount);
    var reviewTitles := TopTitles(inReview, TitleCount);
    var progTitles := TopTitles(inProgress, TitleCount);

    var lines := [Recent(FirstUpdate(p))];
    lines := lines + [Completed(|done|, |inReview|)];
    ghost var upToCounts := lines;
    assert upToCounts == [Recent(FirstUpdate(p)), Completed(|done|, |inReview|)];
    if doneTitles != [] {
      lines := lines + [Top(Done, doneTitles)];
    }
    assert lines == upToCounts + TopLine(done, Done);
    ghost var upToDone := lines;
    if reviewTitles != [] {
      lines := lines + [Top(InReview, reviewTitles)];
    }
    assert lines == upToDone + TopLine(inReview, InReview);
    ghost var upToReview := lines;
    lines := lines + [Ongoing(|inProgress|)];
    ghost var upToOngoing := lines;
    if progTitles != [] {
      lines := lines + [Top(InProgress, progTitles)];
    }
    assert lines == upToOngoing + TopLine(inProgress, InProgress);
    ghost var upToProgress := lines;
    lines := lines + [Readout(p.state, p.health)];
    assert upToOngoing == upToReview + [Ongoing(|inProgress|)];
    assert lines == upToProgress + [Readout(p.state, p.health)];
    assert lines == LinesOf(p, Tally(done, inReview, inProgress));
    report := Join(RenderAll(lines), "\n");
  }

  // ---------------------------------------------------------------------
  // Properties of the report

  function Ind(c: bool): nat { if c then 1 else 0 }

  /** Every issue lands in exactly one bucket; "other" issues are counted
      nowhere in the report. */
  lemma {:induction false} CountsPartition(issues: seq<Issue>)
    ensures Count(issues, Done) + Count(issues, InReview) + Count(issues, InProgress)
      + Count(issues, Other) == |issues|
  {
    if issues != [] {
      CountsPartition(issues[1..]);
    }
  }

  /** An issue occurs in bucket `b`'s list as often as in the input when
      its bucket is `b`, and not at all otherwise. */
  lemma {:induction false} SelectOccurrences<T>(s: seq<T>, keep: T -> bool, x: T)
    ensures multiset(Select(s, keep))[x] == if keep(x) then multiset(s)[x] else 0
  {
    if s != [] {
      var t := s[1..];
      var head := if keep(s[0]) then [s[0]] else [];
      SelectOccurrences(t, keep, x);
      assert s == [s[0]] + t;
      assert multiset(s) == multiset([s[0]]) + multiset(t);
      assert Select(s, keep) == head + Select(t, keep);
      assert multiset(Select(s, keep)) == multiset(head) + multiset(Select(t, keep));
    }
  }

  lemma InBucketOccurrences(issues: seq<Issue>, b: Bucket, it: Issue)
    ensures multiset(InBucket(issues, b))[it] ==
      if BucketOf(it) == b then multiset(issues)[it] else 0
  {
    SelectOccurrences(issues, x => BucketOf(x) == b, it);
  }

  lemma TopLineLength(sel: seq<Issue>, b: Bucket)
    ensures |TopLine(sel, b)| == Ind(|sel| > 0)
  {
    TopTitlesEmptyIff(sel, TitleCount);
  }

  /** The report has the update line, the done/review count line, the
      in-progress count line and the readout always, plus one title line per
      non-empty list: 4 to 7 lines. */
  lemma LinesCount(p: Project, t: Tally)
    ensures |LinesOf(p, t)| == 4 + Ind(|t.done| > 0) + Ind(|t.inReview| > 0) + Ind(|t.inProgress| > 0)
    ensures 4 <= |LinesOf(p, t)| <= 7
  {
    TopLineLength(t.done, Done);
    TopLineLength(t.inReview, InReview);
    TopLineLength(t.inProgress, InProgress);
  }

  /** The fixed lines: update first, done/review counts second, the
      in-progress count after the done and review title lines, readout last. */
  lemma LinesFixed(p: Project, t: Tally)
    ensures var l := LinesOf(p, t);
      var d, r := Ind(|t.done| > 0), Ind(|t.inReview| > 0);
      |l| >= 4 &&
      l[0] == Recent(FirstUpdate(p)) &&
      l[1] == Completed(|t.done|, |t.inReview|) &&
      l[2 + d + r] == Ongoing(|t.inProgress|) &&
      l[|l| - 1] == Readout(p.state, p.health)
  {
    TopLineLength(t.done, Done);
    TopLineLength(t.inReview, InReview);
    TopLineLength(t.inProgress, InProgress);
  }

  predicate IsTitleLine(l: Line) {
    l.Top?
  }

  lemma {:induction false} SelectAppend<T>(a: seq<T>, b: seq<T>, keep: T -> bool)
    ensures Select(a + b, keep) == Select(a, keep) + Select(b, keep)
  {
    if a != [] {
      assert (a + b)[0] == a[0];
      assert (a + b)[1..] == a[1..] + b;
      SelectAppend(a[1..], b, keep);
    } else {
      assert [] + b == b;
    }
  }

  /** The title lines of the report, in order, are the done line, the review
      line and the in-progress line (each present exactly when its list is
      non-empty, by `TopLineLength`); so no bucket has two and "other" has
      none. */
  lemma LinesTitles(p: Project, t: Tally)
    ensures Select(LinesOf(p, t), IsTitleLine) ==
      TopLine(t.done, Done) + TopLine(t.inReview, InReview) + TopLine(t.inProgress, InProgress)
  {
    var t1, t2, t3 := TopLine(t.done, Done), TopLine(t.inReview, InReview), TopLine(t.inProgress, InProgress);
    var head := [Recent(FirstUpdate(p)), Completed(|t.done|, |t.inReview|)];
    var o, z := [Ongoing(|t.inProgress|)], [Readout(p.state, p.health)];
    assert LinesOf(p, t) == head + t1 + t2 + o + t3 + z;
    assert Select(head, IsTitleLine) == [] by {
      assert head[1..] == [head[1]];
    }
    SelectTopLine(t.done, Done);
    SelectTopLine(t.inReview, InReview);
    SelectTopLine(t.inProgress, InProgress);
    SelectPieces(head, t1, t2, o, t3, z);
  }

  lemma SelectTopLine(sel: seq<Issue>, b: Bucket)
    ensures Select(TopLine(sel, b), IsTitleLine) == TopLine(sel, b)
  {
    var tl := TopLine(sel, b);
    if tl != [] {
      assert tl[1..] == [];
    }
  }

  /** Title lines of a report assembled from pieces: only the title pieces
      contribute. */
  lemma SelectPieces(head: seq<Line>, t1: seq<Line>, t2: seq<Line>, o: seq<Line>, t3: seq<Line>, z: seq<Line>)
    requires Select(head, IsTitleLine) == [] && Select(o, IsTitleLine) == [] && Select(z, IsTitleLine) == []
    requires Select(t1, IsTitleLine) == t1 && Select(t2, IsTitleLine) == t2 && Select(t3, IsTitleLine) == t3
    ensures Select(head + t1 + t2 + o + t3 + z, IsTitleLine) == t1 + t2 + t3
  {
    var a1 := head + t1;
    SelectAppend(head, t1, IsTitleLine);
    assert Select(a1, IsTitleLine) == t1;
    var a2 := a1 + t2;
    SelectAppend(a1, t2, IsTitleLine);
    var a3 := a2 + o;
    SelectAppend(a2, o, IsTitleLine);
    assert Select(a3, IsTitleLine) == t1 + t2;
    var a4 := a3 + t3;
    SelectAppend(a3, t3, IsTitleLine);
    SelectAppend(a4, z, IsTitleLine);
    assert Select(a4 + z, IsTitleLine) == t1 + t2 + t3;
  }

  /** The three lists hold exactly the issues of their bucket, in input order,
      so the counts are the numbers of issues in each bucket. */
  lemma TallyCounts(issues: seq<Issue>)
    ensures var t := TallyOf(issues);
      |t.done| == Count(issues, Done) && |t.inReview| == Count(issues, InReview) &&
      |t.inProgress| == Count(issues, InProgress) &&
      |t.done| + |t.inReview| + |t.inProgress| + Count(issues, Other) == |issues|
  {
    CountsPartition(issues);
  }

  /** A title shown under a bucket is the title of an input issue in that
      bucket, so "other" issues never contribute a title; at most three are shown. */
  lemma TitlesFromBucket(issues: seq<Issue>, b: Bucket)
    ensures var titles := TopTitles(InBucket(issues, b), TitleCount);
      |titles| <= TitleCount &&
      forall t | t in titles :: exists it | it in issues :: BucketOf(it) == b && it.title == t
  {
    var sel := InBucket(issues, b);
    InBucketMembers(issues, b);
    TopTitlesFromInput(sel, TitleCount);
    TopTitlesShape(sel, TitleCount);
  }

  /** With no issues the report is the update line, two zero counts and the
      readout. */
  lemma NoIssuesReport(p: Project)
    ensures ReportLines(p, []) == [Recent(FirstUpdate(p)), Completed(0, 0), Ongoing(0), Readout(p.state, p.health)]
  {
    TopLineLength([], Done);
  }

  /** The update line quotes author and raw timestamp; the body part is at
      most 400 characters, holds no backslash-n, and keeps every real
      newline of the first 400 characters of the body. */
  lemma RecentLineContent(u: ProjectUpdate)
    ensures var b := ShownBody(u.body);
      Render(Recent(Some(u))) == "Most recent update: " + u.author + " (" + u.createdAt + "): " + b &&
      |b| <= BodyLimit && !Contains(b, EscapedNewline) &&
      multiset(b)['\n'] == multiset(Take(u.body, BodyLimit))['\n']
  {
    ReplaceEscapedNewline(Take(u.body, BodyLimit));
  }

  // ---------------------------------------------------------------------
  // How each line starts

  lemma HeadOf(pre: string, rest: string, c: char)
    requires pre != [] && pre[0] == c
    ensures (pre + rest) != [] && (pre + rest)[0] == c
  {
  }

  lemma NoUpdateHead()
    ensures var r := Render(Recent(None)); r != [] && r[0] == 'M'
  {
    HeadOf("Most recent update: ", "No project update found in Linear.", 'M');
  }

  lemma UpdateHead(x: ProjectUpdate)
    ensures var r := Render(Recent(Some(x))); r != [] && r[0] == 'M'
  {
    var rest := x.author + " (" + x.createdAt + "): " + ShownBody(x.body);
    HeadOf("Most recent update: ", rest, 'M');
    assert Render(Recent(Some(x))) == "Most recent update: " + rest;
  }

  lemma CompletedHead(d: nat, r: nat)
    ensures var s := Render(Completed(d, r)); s != [] && s[0] == 'M'
  {
    var rest := Decimal(d) + "; In Review=" + Decimal(r);
    HeadOf("Most recently completed (counts): Done=", rest, 'M');
    assert Render(Completed(d, r)) == "Most recently completed (counts): Done=" + rest;
  }

  lemma TopHead(b: Bucket, ts: seq<string>)
    ensures var s := Render(Top(b, ts)); s != [] && s[0] == 'T'
  {
    var rest := BucketLabel(b) + " titles: " + Join(ts, "; ");
    HeadOf("Top ", rest, 'T');
    assert Render(Top(b, ts)) == "Top " + rest;
  }

  lemma OngoingHead(n: nat)
    ensures var s := Render(Ongoing(n)); s != [] && s[0] == 'C'
  {
    HeadOf("Current ongoing work (counts): In Progress=", Decimal(n), 'C');
  }

  lemma ReadoutHead(st: Option<string>, h: Option<string>)
    ensures var s := Render(Readout(st, h)); s != [] && s[0] == 'L'
  {
    var rest := Show(st) + "; health=" + Show(h);
    HeadOf("Leadership readout: status=", rest, 'L');
    assert Render(Readout(st, h)) == "Leadership readout: status=" + rest;
  }

  /** Every report line starts with a letter. */
  lemma RenderHead(l: Line)
    ensures Render(l) != [] && !IsSpace(Render(l)[0])
  {
    match l
    case Recent(None) => NoUpdateHead();
    case Recent(Some(x)) => UpdateHead(x);
    case Completed(d, r) => CompletedHead(d, r);
    case Top(b, ts) => TopHead(b, ts);
    case Ongoing(n) => OngoingHead(n);
    case Readout(st, h) => ReadoutHead(st, h);
  }
}
