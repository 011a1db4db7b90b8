/** Looking up a project by slug and collecting its issues page by page
    (`fetch_project_and_issues`, scripts/sync_okrs.py:220-240). The tracker
    is not called: the project lookup's `nodes` and the issue pages it would
    serve, in request order, are parameters. */
module Paging {
  import opened PyText
  import opened Linear

  /** The safety cap: paging stops once more than this many issues are held. */
  const MaxIssues: nat := 2000

  datatype Result<T, E> = Ok(value: T) | Err(error: E)

  /** `No Linear project found for slug: ...`. */
  datatype FetchError = NoProject(slug: string)

  /** The variables of one issues request. */
  datatype Request = Request(projectId: string, after: Option<string>)

  datatype Fetched = Fetched(project: Project, issues: seq<Issue>)

  /** The issues of the first `k` pages, in order. */
  function Collected(pages: seq<Page>, k: nat): (r: seq<Issue>)
    requires k <= |pages|
  {
    if k == 0 then [] else Collected(pages, k - 1) + pages[k - 1].nodes
  }

  /** After page `j` the loop asks for another page: it has a successor and
      the cap is not yet exceeded. */
  predicate Continues(pages: seq<Page>, j: nat)
    requires j < |pages|
  {
    pages[j].hasNextPage && |Collected(pages, j + 1)| <= MaxIssues
  }

  /** Paging ends within the given pages (an endless listing of empty pages
      would keep the loop running). */
  predicate Ends(pages: seq<Page>) {
    exists j | 0 <= j < |pages| :: !Continues(pages, j)
  }

  /** The index of the first page at or after `j` after which the loop stops. */
  function StopFrom(pages: seq<Page>, j: nat): (s: nat)
    requires j <= |pages| && exists k | j <= k < |pages| :: !Continues(pages, k)
    ensures j <= s < |pages| && !Continues(pages, s)
    decreases |pages| - j
  {
    if !Continues(pages, j) then j else StopFrom(pages, j + 1)
  }

  function StopIndex(pages: seq<Page>): (s: nat)
    requires Ends(pages)
    ensures s < |pages|
  {
    StopFrom(pages, 0)
  }

  /** The cursor sent with request `i`: none first, then the previous page's
      `endCursor`. */
  function CursorBefore(pages: seq<Page>, i: nat): Option<string>
    requires i <= |pages|
  {
    if i == 0 then None else pages[i - 1].endCursor
  }

  /** The requests made for pages `0..k-1`. */
  function Requests(projectId: string, pages: seq<Page>, k: nat): (r: seq<Request>)
    requires k <= |pages|
    ensures |r| == k
  {
    if k == 0 then [] else Requests(projectId, pages, k - 1) + [Request(projectId, CursorBefore(pages, k - 1))]
  }

  /** What `fetch_project_and_issues` returns: the first project node and the
      issues of every page up to the one after which paging stops. */
  function FetchResult(slug: string, nodes: seq<Project>, pages: seq<Page>): Result<Fetched, FetchError>
    requires nodes != [] ==> Ends(pages)
  {
    if nodes == [] then Err(NoProject(slug))
    else Ok(Fetched(nodes[0], Collected(pages, StopIndex(pages) + 1)))
  }

  /** The paging loop. Besides the result it yields the requests it made. */
  method FetchProjectAndIssues(slug: string, nodes: seq<Project>, pages: seq<Page>)
    returns (r: Result<Fetched, FetchError>, requests: seq<Request>)
    requires nodes != [] ==> Ends(pages)
    ensures r == FetchResult(slug, nodes, pages)
    ensures nodes == [] ==> requests == []
    ensures nodes != [] ==> requests == Requests(nodes[0].id, pages, StopIndex(pages) + 1)
  {
    if |nodes| == 0 {
      return Err(NoProject(slug)), [];
    }
    var project := nodes[0];
    var issues: seq<Issue> := [];
    var after: Option<string> := None;
    requests := [];
    var i := 0;
    while true
      invariant i <= StopIndex(pages)
      invariant StopFrom(pages, i) == StopIndex(pages)
      invariant issues == Collected(pages, i)
      invariant after == CursorBefore(pages, i)
      invariant requests == Requests(project.id, pages, i)
      decreases StopIndex(pages) - i
    {
      requests := requests + [Request(project.id, after)];
      var page := pages[i];
      issues := issues + page.nodes;
      if !page.hasNextPage {
        StopHere(pages, i);
        break;
      }
      after := page.endCursor;
      if |issues| > MaxIssues {
        StopHere(pages, i);
        break;
      }
      GoOn(pages, i);
      i := i + 1;
    }
    r := Ok(Fetched(project, issues));
  }

  /** The loop stops after page `i` when it does not go on from there. */
  lemma StopHere(pages: seq<Page>, i: nat)
    requires Ends(pages) && i <= StopIndex(pages) && StopFrom(pages, i) == StopIndex(pages)
    requires !Continues(pages, i)
    ensures StopIndex(pages) == i
  {
  }

  /** The loop moves on past page `i` when it goes on from there. */
  lemma GoOn(pages: seq<Page>, i: nat)
    requires Ends(pages) && i <= StopIndex(pages) && StopFrom(pages, i) == StopIndex(pages)
    requires Continues(pages, i)
    ensures i + 1 <= StopIndex(pages) && StopFrom(pages, i + 1) == StopIndex(pages)
  {
  }

  /** The stop page is the first page after which the loop does not go on. */
  lemma {:induction false} StopFromFirst(pages: seq<Page>, j: nat)
    requires j <= |pages| && exists k | j <= k < |pages| :: !Continues(pages, k)
    ensures forall k | j <= k < StopFrom(pages, j) :: Continues(pages, k)
    decreases |pages| - j
  {
    if Continues(pages, j) {
      StopFromFirst(pages, j + 1);
    }
  }

  /** Fewer pages than the listing has are collected only when the cap
      fired: the last page fetched either has no successor or brought the
      total above 2000, and every earlier page had a successor and left the
      total at most 2000. */
  lemma StopIndexSpec(pages: seq<Page>)
    requires Ends(pages)
    ensures !pages[StopIndex(pages)].hasNextPage || |Collected(pages, StopIndex(pages) + 1)| > MaxIssues
    ensures forall k | 0 <= k < StopIndex(pages) :: pages[k].hasNextPage
    ensures forall k | 1 <= k <= StopIndex(pages) :: |Collected(pages, k)| <= MaxIssues
  {
    StopFromFirst(pages, 0);
    var s := StopIndex(pages);
    assert !Continues(pages, s);
    forall k | 0 <= k < s ensures pages[k].hasNextPage {
      assert Continues(pages, k);
    }
    forall k | 1 <= k <= s ensures |Collected(pages, k)| <= MaxIssues {
      assert Continues(pages, k - 1);
    }
  }

  lemma {:induction false} CollectedPrefix(pages: seq<Page>, j: nat, k: nat)
    requires j <= k <= |pages|
    ensures Collected(pages, j) <= Collected(pages, k)
    decreases k - j
  {
    if j < k {
      CollectedPrefix(pages, j, k - 1);
    }
  }

  /** The issues fetched are a prefix of the whole listing, and hold at most
      2000 issues plus those of the last page fetched. */
  lemma FetchedIssuesBound(pages: seq<Page>)
    requires Ends(pages)
    ensures var s := StopIndex(pages);
      var issues := Collected(pages, s + 1);
      issues <= Collected(pages, |pages|) &&
      |issues| <= MaxIssues + |pages[s].nodes|
  {
    var s := StopIndex(pages);
    CollectedPrefix(pages, s + 1, |pages|);
    StopIndexSpec(pages);
    if s > 0 {
      assert |Collected(pages, s)| <= MaxIssues;
    }
  }

  /** A listing whose total never exceeds 2000 is fetched up to its first
      page without a successor. */
  lemma SmallListingComplete(pages: seq<Page>)
    requires Ends(pages)
    requires |Collected(pages, |pages|)| <= MaxIssues
    ensures !pages[StopIndex(pages)].hasNextPage
  {
    var s := StopIndex(pages);
    CollectedPrefix(pages, s + 1, |pages|);
  }
}
