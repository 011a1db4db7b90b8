/** Classification of an issue's workflow state into the report's buckets
    (scripts/sync_okrs.py:242-255). */
module Buckets {
  import opened PyText
  import opened Linear

  datatype Bucket = Done | InReview | InProgress | Other

  /** The string `bucket_issue` returns for each bucket. */
  function BucketName(b: Bucket): (s: string)
    ensures s in {"done", "in_review", "in_progress", "other"}
  {
    match b
    case Done => "done"
    case InReview => "in_review"
    case InProgress => "in_progress"
    case Other => "other"
  }

  /** The four names are distinct, so the returned string identifies the bucket. */
  lemma BucketNameInjective(a: Bucket, b: Bucket)
    requires BucketName(a) == BucketName(b)
    ensures a == b
  {
  }

  /** `(x or "").lower()`. */
  function Folded(x: Option<string>): string {
    match x
    case None => ""
    case Some(s) => Lower(s)
  }

  predicate DoneLike(st: string, name: string) {
    st == "completed" || name == "done" || name == "completed"
  }

  predicate ReviewLike(name: string) {
    Contains(name, "review")
  }

  predicate ProgressLike(st: string, name: string) {
    st == "started" || name == "in progress" || name == "in-progress"
  }

  /** `bucket_issue(state_type, state_name)`: an ordered decision on the
      case-folded type and name, done before review before in progress. */
  function BucketIssue(stateType: Option<string>, stateName: Option<string>): Bucket {
    var st := Folded(stateType);
    var name := Folded(stateName);
    if st == "completed" || name in {"done", "completed"} then Done
    else if Contains(name, "review") then InReview
    else if st == "started" || name in {"in progress", "in-progress"} then InProgress
    else Other
  }

  /** Exactly one bucket applies, and the checks take precedence in the
      order done, review, in progress. */
  lemma Precedence(stateType: Option<string>, stateName: Option<string>)
    ensures var b := BucketIssue(stateType, stateName);
      var st, name := Folded(stateType), Folded(stateName);
      (b == Done <==> DoneLike(st, name)) &&
      (b == InReview <==> !DoneLike(st, name) && ReviewLike(name)) &&
      (b == InProgress <==> !DoneLike(st, name) && !ReviewLike(name) && ProgressLike(st, name)) &&
      (b == Other <==> !DoneLike(st, name) && !ReviewLike(name) && !ProgressLike(st, name))
  {
  }

  /** The bucket of an issue, from its `state.type` and `state.name`. */
  function BucketOf(it: Issue): Bucket {
    BucketIssue(it.state.stateType, it.state.name)
  }

  function LowerOpt(x: Option<string>): Option<string> {
    match x
    case None => None
    case Some(s) => Some(Lower(s))
  }

  /** The decision ignores letter case: lower-casing either input first
      changes nothing. */
  lemma CaseInsensitive(stateType: Option<string>, stateName: Option<string>)
    ensures BucketIssue(LowerOpt(stateType), LowerOpt(stateName)) == BucketIssue(stateType, stateName)
  {
    if stateType.Some? { LowerIdempotent(stateType.value); }
    if stateName.Some? { LowerIdempotent(stateName.value); }
  }

  /** A missing type or name is treated as the empty string. */
  lemma NoneIsEmpty(stateType: Option<string>, stateName: Option<string>)
    ensures BucketIssue(None, stateName) == BucketIssue(Some(""), stateName)
    ensures BucketIssue(stateType, None) == BucketIssue(stateType, Some(""))
  {
  }

  /** Completed type wins over a review-like name. */
  lemma CompletedBeatsReview(stateName: Option<string>)
    ensures BucketIssue(Some("Completed"), stateName) == Done
  {
    var st := Lower("Completed");
    assert st[0] == 'c' && st[1..] == "ompleted";
  }

  /** A name that mentions review puts the issue in review even when its
      type is started: the review check comes before the in-progress one. */
  lemma ReviewBeatsStarted(stateType: Option<string>, stateName: Option<string>)
    requires Folded(stateType) == "started"
    requires ReviewLike(Folded(stateName))
    ensures BucketIssue(stateType, stateName) == InReview
  {
    var name := Folded(stateName);
    var i :| 0 <= i <= |name| - 6 && OccursAt(name, "review", i);
    assert name[i] == 'r';
    assert name != "completed" && name != "done";
  }

  /** With no type at all, the name alone decides: any spelling of "done"
      or "completed", whatever its letter case, makes the issue done, and
      no other name does. */
  lemma NameAloneDecides(n: string)
    ensures BucketIssue(None, Some(n)) == Done <==> Lower(n) == "done" || Lower(n) == "completed"
  {
  }
}
