/**
 * The stateful part of `FilesContainer`: the four state slots (`waiting`,
 * `files`, `ahead`, `behind`), the props of the latest render, and the
 * component's outputs (error notifications, pushed locations, issued
 * requests). Completion callbacks of the two backend requests arrive as
 * events, applied one at a time in the order given.
 *
 * `State`, `Step` and `Run` are the specification; the class
 * `FilesContainer` is the component, whose event methods are proved to
 * perform `Step`.
 */
module Container {
  import opened Wrappers
  import opened FilesView

  datatype State = State(
    props: Props,
    waiting: bool,
    files: seq<FileEntry>,
    ahead: nat,
    behind: nat,
    notices: seq<Notice>,
    pushed: seq<string>,
    requests: seq<Request>)

  datatype Event =
    | Rendered(p: Props)
    | ListingSucceeded(fs: seq<FileEntry>)
    | ListingFailed
    | ComparisonSucceeded(aheadCommits: seq<string>, behindCommits: seq<string>)
    | ComparisonFailed(message: Option<string>)
    | Clicked(targetId: string, dataKey: Option<string>)

  /** The effect's dependency list `[projectId, path, finalBranch, defaultBranch]`. */
  function Deps(p: Props): (int, string, string, string)
  {
    (p.projectId, p.path, EffectiveBranch(p), p.defaultBranch)
  }

  /**
   * The dependency list holds every input of the effect: props with equal
   * dependencies issue the same requests and leave the same state.
   */
  lemma DepsDetermineEffect(s: State, p: Props, q: Props)
    requires Deps(p) == Deps(q)
    ensures EffectRequests(p) == EffectRequests(q)
    ensures Effect(s, p) == Effect(s, q)
  {
    assert EffectiveBranch(p) == EffectiveBranch(q);
  }

  /** One run of the load effect: mark the listing as pending and issue the requests. */
  function Effect(s: State, p: Props): (r: State)
    ensures r.requests == s.requests + EffectRequests(p)
    ensures r.waiting <==> s.waiting || p.projectId != 0
    ensures r.files == s.files && r.ahead == s.ahead && r.behind == s.behind
    ensures r.props == s.props && r.notices == s.notices && r.pushed == s.pushed
  {
    s.(waiting := if p.projectId != 0 then true else s.waiting,
       requests := s.requests + EffectRequests(p))
  }

  /** The state right after the first render with props `p`: initial slots, and the effect has run. */
  function Mount(p: Props): (s: State)
    ensures s.props == p && s.files == [] && s.ahead == 0 && s.behind == 0
    ensures s.waiting <==> p.projectId != 0
    ensures s.requests == EffectRequests(p) && s.notices == [] && s.pushed == []
  {
    Effect(State(p, false, [], 0, 0, [], [], []), p)
  }

  /**
   * The effect of one event. Only a render with changed dependencies issues
   * requests; each slot is written only by its own completion; the output
   * logs only grow.
   */
  function Step(s: State, e: Event): (r: State)
    ensures !e.Rendered? ==> r.props == s.props && r.requests == s.requests
    ensures !e.ListingSucceeded? ==> r.files == s.files
    ensures !e.ComparisonSucceeded? ==> r.ahead == s.ahead && r.behind == s.behind
    ensures !e.Clicked? ==> r.pushed == s.pushed
    ensures e.ListingSucceeded? || e.ListingFailed? ==> !r.waiting
    ensures !(e.ListingSucceeded? || e.ListingFailed? || e.Rendered?) ==> r.waiting == s.waiting
    ensures e.Rendered? && Deps(e.p) == Deps(s.props) ==> r == s.(props := e.p)
    ensures e.Rendered? && Deps(e.p) != Deps(s.props) ==> r.requests == s.requests + EffectRequests(e.p)
    ensures s.notices <= r.notices && s.pushed <= r.pushed && s.requests <= r.requests
    ensures |r.notices| <= |s.notices| + 1 && |r.pushed| <= |s.pushed| + 1
  {
    match e
    case Rendered(p) =>
      if Deps(p) == Deps(s.props) then s.(props := p) else Effect(s.(props := p), p)
    case ListingSucceeded(fs) =>
      s.(files := fs, waiting := false)
    case ListingFailed =>
      s.(notices := s.notices + [ListingFailure], waiting := false)
    case ComparisonSucceeded(a, b) =>
      s.(ahead := |a|, behind := |b|)
    case ComparisonFailed(message) =>
      s.(notices := s.notices + [Notice("Error", message)])
    case Clicked(targetId, dataKey) =>
      Outcome(s, OnClick(s.props, s.files, targetId, dataKey))
  }

  /** A click's outcome applied: the location is pushed, or the notification is shown. */
  function Outcome(s: State, outcome: ClickOutcome): (r: State)
    ensures outcome.Navigate? ==> r == s.(pushed := s.pushed + [outcome.url])
    ensures outcome.Refuse? ==> r == s.(notices := s.notices + [outcome.notice])
    ensures r.files == s.files && r.props == s.props && r.requests == s.requests && r.waiting == s.waiting
    ensures r.ahead == s.ahead && r.behind == s.behind
  {
    match outcome
    case Navigate(url) => s.(pushed := s.pushed + [url])
    case Refuse(notice) => s.(notices := s.notices + [notice])
  }

  /** The state after the events `es`, applied in order from `s`. */
  function Run(s: State, es: seq<Event>): State
    decreases |es|
  {
    if es == [] then s else Step(Run(s, es[..|es| - 1]), es[|es| - 1])
  }

  // ------------------------------------------------------------------ view

  datatype Banner = Banner(ahead: nat, behind: nat, baseBranch: string, mergeRequestLink: Option<string>)

  /** What the component renders: the divergence banner, the table's rows and flags. */
  datatype View = View(banner: Option<Banner>, rows: seq<Row>, returnVisible: bool, loading: bool)

  /**
   * The rendered view. The banner shows exactly when `ahead || behind`, and
   * holds the merge-request link exactly when the viewer may create one;
   * the "return" option shows exactly when the path is non-empty.
   */
  function ViewOf(s: State, mayCreateMergeRequest: bool): (v: View)
    ensures v.banner.Some? <==> s.ahead > 0 || s.behind > 0
    ensures v.banner.Some? ==> v.banner.value.ahead == s.ahead && v.banner.value.behind == s.behind &&
                               v.banner.value.baseBranch == s.props.defaultBranch
    ensures v.banner.Some? ==>
              v.banner.value.mergeRequestLink == (if mayCreateMergeRequest then Some(MergeRequestLink(s.props)) else None)
    ensures v.returnVisible <==> s.props.path != ""
    ensures v.loading == s.waiting
    ensures v.rows == Rows(s.files) && |v.rows| == |s.files|
  {
    var hasChanges := s.ahead != 0 || s.behind != 0;
    var banner :=
      if hasChanges then
        Some(Banner(s.ahead, s.behind, s.props.defaultBranch,
                    if mayCreateMergeRequest then Some(MergeRequestLink(s.props)) else None))
      else None;
    View(banner, Rows(s.files), s.props.path != "", s.waiting)
  }

  // ------------------------------------------------------------- component

  class FilesContainer {
    var props: Props
    var waiting: bool
    var files: seq<FileEntry>
    var ahead: nat
    var behind: nat
    /** Notifications passed to `toastr.error`. */
    var notices: seq<Notice>
    /** Locations passed to `history.push`. */
    var pushed: seq<string>
    /** Requests issued to the backend. */
    var requests: seq<Request>

    function Snapshot(): State
      reads this
    {
      State(props, waiting, files, ahead, behind, notices, pushed, requests)
    }

    /** The first render: the state slots start empty and the effect runs. */
    constructor (p: Props)
      ensures Snapshot() == Mount(p)
    {
      props, waiting, files, ahead, behind := p, false, [], 0, 0;
      notices, pushed, requests := [], [], [];
      new;
      RunEffect(p);
    }

    /** The body of the load effect. */
    method RunEffect(p: Props)
      modifies this
      ensures Snapshot() == Effect(old(Snapshot()), p)
    {
      var branch := EffectiveBranch(p);
      if p.projectId != 0 {
        waiting := true;
        requests := requests + [ListFiles(p.projectId, p.path, false, branch)];
      }
      if p.defaultBranch != branch {
        requests := requests + [CompareBranches(p.projectId, p.defaultBranch, branch)];
      }
    }

    /** A later render with props `p`; the effect runs again only when its dependencies changed. */
    method Render(p: Props)
      modifies this
      ensures Snapshot() == Step(old(Snapshot()), Rendered(p))
    {
      var changed := Deps(p) != Deps(props);
      props := p;
      if changed {
        RunEffect(p);
      }
    }

    /** The listing request resolved with `fs`. */
    method ListingOk(fs: seq<FileEntry>)
      modifies this
      ensures files == fs && !waiting
      ensures Snapshot() == Step(old(Snapshot()), ListingSucceeded(fs))
    {
      files := fs;
      waiting := false;
    }

    /** The listing request was rejected. */
    method ListingFail()
      modifies this
      ensures files == old(files) && !waiting && notices == old(notices) + [ListingFailure]
      ensures Snapshot() == Step(old(Snapshot()), ListingFailed)
    {
      notices := notices + [ListingFailure];
      waiting := false;
    }

    /** The comparison resolved with the ahead and behind commit lists. */
    method CompareOk(aheadCommits: seq<string>, behindCommits: seq<string>)
      modifies this
      ensures ahead == |aheadCommits| && behind == |behindCommits|
      ensures Snapshot() == Step(old(Snapshot()), ComparisonSucceeded(aheadCommits, behindCommits))
    {
      ahead := |aheadCommits|;
      behind := |behindCommits|;
    }

    /** The comparison was rejected with an error whose message may be missing. */
    method CompareFail(message: Option<string>)
      modifies this
      ensures ahead == old(ahead) && behind == old(behind)
      ensures notices == old(notices) + [Notice("Error", message)]
      ensures Snapshot() == Step(old(Snapshot()), ComparisonFailed(message))
    {
      notices := notices + [Notice("Error", message)];
    }

    /** A click on the row control with element id `targetId` and attribute `data-key`. */
    method Click(targetId: string, dataKey: Option<string>)
      modifies this
      ensures Snapshot() == Step(old(Snapshot()), Clicked(targetId, dataKey))
    {
      var file := Lookup(files, targetId);
      if file.None? {
        notices := notices + [BrowseFailure];
        return;
      }
      pushed := pushed + [NavigationLink(props, dataKey, file.value)];
    }
  }
}
