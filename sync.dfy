/** The job's main loop (`main`, scripts/sync_okrs.py:304-332) and what it
    writes for each tracking row. The services are not called: for each row,
    the answers they would give (project nodes, issue pages, the page's
    top-level blocks, the id a created heading gets) are parameters, and
    the writes the job makes come back as a list of effects. */
module Sync {
  import opened PyText
  import opened Linear
  import opened Buckets
  import opened Slug
  import opened Paging
  import opened ExecReport
  import opened Notion

  /** One row of the tracking database: its page id, its project URL
      property (`None` when empty) and the plain texts of its title. */
  datatype Row = Row(pageId: string, url: Option<string>, objective: seq<string>)

  /** What the services answer while the row is processed. */
  datatype Service = Service(nodes: seq<Project>, pages: seq<Page>, blocks: seq<Block>, newHeadingId: string)

  /** A write to the document service. */
  datatype Effect =
    | SetLatestUpdate(pageId: string, content: string)
    | CreateHeading(pageId: string)
    | AppendEntry(headingId: string, title: string, children: seq<string>)

  datatype RowOutcome = Skipped | Synced(effects: seq<Effect>) | Failed(error: FetchError)

  /** The issue pages of a row's project end (see `Paging.Ends`). */
  predicate Answers(svc: Service) {
    svc.nodes != [] ==> Ends(svc.pages)
  }

  /** `project.get("name") or objective`. */
  function EntryName(p: Project, objective: string): string {
    match p.name
    case Some(n) => if n != "" then n else objective
    case None => objective
  }

  /** The title's text: `"".join(plain_text).strip()`. */
  function Objective(row: Row): string {
    Strip(Join(row.objective, ""))
  }

  /** The writes for a row whose project was fetched: the property, the
      heading when it has to be created, and the dated entry. */
  function RowWrites(pageId: string, report: string, res: Resolution, title: string): seq<Effect>
    requires res.headingId.Some?
  {
    [SetLatestUpdate(pageId, LatestUpdateContent(report))] +
    (if res.createdHeading then [CreateHeading(pageId)] else []) +
    [AppendEntry(res.headingId.value, title, LogChildren(report))]
  }

  /** Everything the job does for one row. */
  function RowSpec(row: Row, svc: Service, today: string): RowOutcome
    requires Answers(svc)
  {
    match SlugFromUrl(row.url)
    case None => Skipped
    case Some(slug) =>
      match FetchResult(slug, svc.nodes, svc.pages)
      case Err(e) => Failed(e)
      case Ok(f) =>
        var report := ExecReport.ExecReport(f.project, f.issues);
        var res := ResolveHeading(svc.blocks, svc.newHeadingId);
        ResolveHeadingSpec(svc.blocks, svc.newHeadingId);
        Synced(RowWrites(row.pageId, report, res, EntryTitle(today, EntryName(f.project, Objective(row)))))
  }

  /** One iteration of the main loop. */
  method SyncRow(row: Row, svc: Service, today: string) returns (o: RowOutcome)
    requires Answers(svc)
    ensures o == RowSpec(row, svc, today)
  {
    var slug := SlugFromUrl(row.url);
    if slug.None? {
      return Skipped;
    }
    var objective := Strip(Join(row.objective, ""));
    var fetched, requests := FetchProjectAndIssues(slug.value, svc.nodes, svc.pages);
    if fetched.Err? {
      return Failed(fetched.error);
    }
    var project, issues := fetched.value.project, fetched.value.issues;
    var report := FormatExecUpdate(project, issues);
    var res := ResolveLogHeading(svc.blocks, svc.newHeadingId);
    ResolveHeadingSpec(svc.blocks, svc.newHeadingId);
    var title := EntryTitle(today, EntryName(project, objective));
    return Synced(RowWrites(row.pageId, report, res, title));
  }

  /** The writes made for the first `k` rows, and the error that ended the
      run, if any (an error is not caught: it ends the whole run). */
  datatype Batch = Batch(effects: seq<Effect>, failure: Option<FetchError>)

  predicate AllAnswer(svcs: seq<Service>) {
    forall i | 0 <= i < |svcs| :: Answers(svcs[i])
  }

  /** The outcome of every row, as if each were processed. */
  function Outcomes(rows: seq<Row>, svcs: seq<Service>, today: string): (r: seq<RowOutcome>)
    requires |rows| == |svcs| && AllAnswer(svcs)
    ensures |r| == |rows| && forall i | 0 <= i < |rows| :: r[i] == RowSpec(rows[i], svcs[i], today)
  {
    if rows == [] then [] else [RowSpec(rows[0], svcs[0], today)] + Outcomes(rows[1..], svcs[1..], today)
  }

  /** The batch after the first `k` outcomes: writes accumulate until an
      outcome is a failure, which ends the run. */
  function Fold(outs: seq<RowOutcome>, k: nat): Batch
    requires k <= |outs|
  {
    if k == 0 then Batch([], None) else Step(Fold(outs, k - 1), outs[k - 1])
  }

  /** The batch after one more row. */
  function Step(b: Batch, o: RowOutcome): Batch {
    if b.failure.Some? then b
    else match o
      case Skipped => b
      case Failed(e) => Batch(b.effects, Some(e))
      case Synced(es) => Batch(b.effects + es, None)
  }

  function RunRows(rows: seq<Row>, svcs: seq<Service>, today: string): Batch
    requires |rows| == |svcs| && AllAnswer(svcs)
  {
    Fold(Outcomes(rows, svcs, today), |rows|)
  }

  /** `main`: every row in turn, until one fails. */
  method SyncAll(rows: seq<Row>, svcs: seq<Service>, today: string) returns (b: Batch)
    requires |rows| == |svcs| && AllAnswer(svcs)
    ensures b == RunRows(rows, svcs, today)
  {
    ghost var outs := Outcomes(rows, svcs, today);
    b := Batch([], None);
    var i := 0;
    while i < |rows|
      invariant 0 <= i <= |rows|
      invariant b == Fold(outs, i)
      invariant b.failure.None?
    {
      var o := SyncRow(rows[i], svcs[i], today);
      assert o == outs[i];
      b := Step(b, o);
      assert b == Fold(outs, i + 1);
      i := i + 1;
      if b.failure.Some? {
        FailureSticks(outs, i, |rows|);
        return;
      }
    }
  }

  /** Once a row has failed, later rows change nothing. */
  lemma {:induction false} FailureSticks(outs: seq<RowOutcome>, j: nat, k: nat)
    requires j <= k <= |outs|
    requires Fold(outs, j).failure.Some?
    ensures Fold(outs, k) == Fold(outs, j)
    decreases k - j
  {
    if j < k {
      FailureSticks(outs, j, k - 1);
    }
  }

  /** The run fails exactly when some row fails, and then with the error of
      the first row that does; until then it holds the writes of every
      synced row, in order. */
  lemma {:induction false} FailureIsFirstFailed(outs: seq<RowOutcome>, k: nat)
    requires k <= |outs|
    ensures var b := Fold(outs, k);
      (b.failure.None? <==> forall i | 0 <= i < k :: !outs[i].Failed?) &&
      (b.failure.Some? ==> exists i | 0 <= i < k ::
        (outs[i] == Failed(b.failure.value) && forall j | 0 <= j < i :: !outs[j].Failed?))
  {
    if k > 0 {
      FailureIsFirstFailed(outs, k - 1);
      var prev := Fold(outs, k - 1);
      if prev.failure.Some? {
        var i :| 0 <= i < k - 1 && outs[i] == Failed(prev.failure.value) &&
          forall j | 0 <= j < i :: !outs[j].Failed?;
        assert outs[i].Failed?;
      }
    }
  }

  /** The writes of the synced rows, in row order. */
  function SyncedWrites(outs: seq<RowOutcome>): seq<Effect> {
    if outs == [] then []
    else (match outs[0] case Synced(es) => es case _ => []) + SyncedWrites(outs[1..])
  }

  /** A run without failures makes exactly the writes of its synced rows. */
  lemma {:induction false} FoldWrites(outs: seq<RowOutcome>, k: nat)
    requires k <= |outs|
    requires forall i | 0 <= i < k :: !outs[i].Failed?
    ensures Fold(outs, k) == Batch(SyncedWrites(outs[..k]), None)
  {
    if k > 0 {
      FoldWrites(outs, k - 1);
      SyncedWritesSnoc(outs[..k - 1], outs[k - 1]);
      assert outs[..k] == outs[..k - 1] + [outs[k - 1]];
    }
  }

  lemma {:induction false} SyncedWritesSnoc(outs: seq<RowOutcome>, o: RowOutcome)
    ensures SyncedWrites(outs + [o]) == SyncedWrites(outs) + (match o case Synced(es) => es case _ => [])
  {
    if outs != [] {
      assert (outs + [o])[1..] == outs[1..] + [o];
      SyncedWritesSnoc(outs[1..], o);
    }
  }

  /** A row is skipped exactly when no slug can be read from its URL. */
  lemma SkippedIffNoSlug(row: Row, svc: Service, today: string)
    requires Answers(svc)
    ensures RowSpec(row, svc, today).Skipped? <==> SlugFromUrl(row.url).None?
  {
  }

  /** A row fails exactly when the project lookup for its slug is empty. */
  lemma FailedIffNoProject(row: Row, svc: Service, today: string)
    requires Answers(svc)
    ensures RowSpec(row, svc, today).Failed? <==> SlugFromUrl(row.url).Some? && svc.nodes == []
    ensures RowSpec(row, svc, today).Failed? ==> RowSpec(row, svc, today).error == NoProject(SlugFromUrl(row.url).value)
  {
  }

  /** A synced row overwrites its "Latest update" once with at most 2000
      characters of the report, creates a heading only when the resolution
      says so, and appends one entry of at most 20 children, each at most
      2000 characters, last. */
  lemma RowWritesShape(pageId: string, report: string, res: Resolution, title: string)
    requires res.headingId.Some?
    ensures var es := RowWrites(pageId, report, res, title);
      |es| == (if res.createdHeading then 3 else 2) &&
      es[0] == SetLatestUpdate(pageId, LatestUpdateContent(report)) &&
      |es[0].content| <= TextLimit && es[0].content <= report &&
      (res.createdHeading ==> es[1] == CreateHeading(pageId)) &&
      es[|es| - 1] == AppendEntry(res.headingId.value, title, LogChildren(report)) &&
      |es[|es| - 1].children| <= MaxChildren &&
      forall c | c in es[|es| - 1].children :: c != "" && |c| <= TextLimit
  {
    LogChildrenShape(report);
  }

  /** The heading is created exactly when the page has no log heading; the
      entry goes under the first existing one, or else under the new one. */
  lemma RowWritesHeading(pageId: string, report: string, blocks: seq<Block>, newId: string, title: string)
    ensures ResolveHeading(blocks, newId).headingId.Some?
    ensures var es := RowWrites(pageId, report, ResolveHeading(blocks, newId), title);
      var none := forall j | 0 <= j < |blocks| :: !IsLogHeading(blocks[j]);
      (CreateHeading(pageId) in es <==> none) &&
      es[|es| - 1].headingId == (if none then newId else FirstLogHeading(blocks).value)
  {
    ResolveHeadingSpec(blocks, newId);
    var res := ResolveHeading(blocks, newId);
    var es := RowWrites(pageId, report, res, title);
    var last := AppendEntry(res.headingId.value, title, LogChildren(report));
    if res.createdHeading {
      assert es == [SetLatestUpdate(pageId, LatestUpdateContent(report)), CreateHeading(pageId), last];
    } else {
      assert es == [SetLatestUpdate(pageId, LatestUpdateContent(report)), last];
    }
  }

  /** The entry is named after the project, or after the row's title when
      the project has no (or an empty) name. */
  lemma EntryNameFallback(p: Project, objective: string)
    ensures p.name.Some? && p.name.value != "" ==> EntryName(p, objective) == p.name.value
    ensures p.name.None? || p.name == Some("") ==> EntryName(p, objective) == objective
    ensures EntryName(p, objective) == "" <==> (p.name.None? || p.name == Some("")) && objective == ""
  {
  }

  /** When no field printed in the report holds a line break, each report
      line becomes exactly one child of the log entry: the line stripped and
      cut to 2000 characters. */
  lemma ReportChildren(p: Project, issues: seq<Issue>)
    requires forall l | l in ReportLines(p, issues) :: NoLineBreak(Render(l))
    ensures var lines, c := ReportLines(p, issues), LogChildren(ExecReport.ExecReport(p, issues));
      |c| == |lines| &&
      forall i | 0 <= i < |lines| :: c[i] == Take(Strip(Render(lines[i])), TextLimit)
  {
    var lines := ReportLines(p, issues);
    var rendered := RenderAll(lines);
    LinesCount(p, TallyOf(issues));
    forall i | 0 <= i < |rendered|
      ensures rendered[i] != "" && NoLineBreak(rendered[i]) && !IsSpace(rendered[i][0])
    {
      assert lines[i] in lines;
      RenderHead(lines[i]);
    }
    ChildrenOfLines(rendered);
  }
}
