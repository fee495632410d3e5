/**
 * Properties of the component over single events and over whole event
 * sequences (`Run`): what each completion does to the state slots, that
 * responses replace rather than accumulate, that no comparison (and hence
 * no banner) happens while the shown branch is the default one, and what
 * the issued requests look like.
 */
module ContainerProperties {
  import opened Wrappers
  import opened FilesView
  import opened Container

  // ------------------------------------------------------------ one event

  /** A successful listing replaces the entries wholesale and ends the wait. */
  lemma ListingSuccessReplacesFiles(s: State, fs: seq<FileEntry>)
    ensures Step(s, ListingSucceeded(fs)).files == fs
    ensures !Step(s, ListingSucceeded(fs)).waiting
    ensures Step(s, ListingSucceeded(fs)).notices == s.notices
  {
  }

  /** A failed listing keeps the entries, reports the fixed message and ends the wait. */
  lemma ListingFailureKeepsFiles(s: State)
    ensures Step(s, ListingFailed).files == s.files
    ensures Step(s, ListingFailed).notices == s.notices + [ListingFailure]
    ensures !Step(s, ListingFailed).waiting
  {
  }

  /** A successful comparison stores the lengths of the two commit lists. */
  lemma ComparisonSuccessSetsCounts(s: State, a: seq<string>, b: seq<string>)
    ensures Step(s, ComparisonSucceeded(a, b)).ahead == |a|
    ensures Step(s, ComparisonSucceeded(a, b)).behind == |b|
    ensures ViewOf(Step(s, ComparisonSucceeded(a, b)), false).banner.Some? <==> |a| > 0 || |b| > 0
  {
  }

  /** A failed comparison keeps the counts and reports the error's own message (possibly none). */
  lemma ComparisonFailureKeepsCounts(s: State, message: Option<string>)
    ensures Step(s, ComparisonFailed(message)).ahead == s.ahead
    ensures Step(s, ComparisonFailed(message)).behind == s.behind
    ensures Step(s, ComparisonFailed(message)).notices == s.notices + [Notice("Error", message)]
  {
  }

  /** A click that matches no row key pushes nothing and reports the fixed message. */
  lemma UnmatchedClickReported(s: State, targetId: string, dataKey: Option<string>)
    requires forall i :: 0 <= i < |s.files| ==> RowKey(s.files[i]) != targetId
    ensures Step(s, Clicked(targetId, dataKey)) == s.(notices := s.notices + [BrowseFailure])
  {
  }

  /**
   * A click that matches some row key pushes the link of the first matching
   * entry (the index `FirstMatch` finds) and reports nothing.
   */
  lemma MatchedClickNavigates(s: State, targetId: string, dataKey: Option<string>)
    requires exists i :: 0 <= i < |s.files| && RowKey(s.files[i]) == targetId
    ensures FirstMatch(s.files, targetId) < |s.files|
    ensures Step(s, Clicked(targetId, dataKey)) ==
              s.(pushed := s.pushed + [NavigationLink(s.props, dataKey, s.files[FirstMatch(s.files, targetId)])])
  {
    ClickOnFirstMatch(s.props, s.files, targetId, dataKey);
    ClickedStep(s, targetId, dataKey);
  }

  lemma ClickedStep(s: State, targetId: string, dataKey: Option<string>)
    ensures Step(s, Clicked(targetId, dataKey)) == Outcome(s, OnClick(s.props, s.files, targetId, dataKey))
  {
  }

  /** Rendering the same props twice in succession is the same as rendering them once. */
  lemma RenderTwiceIsRenderOnce(s: State, p: Props)
    ensures Step(Step(s, Rendered(p)), Rendered(p)) == Step(s, Rendered(p))
  {
  }

  // ------------------------------------------------------ event sequences

  /** The entries of the most recent successful listing in `es`, else `initial`. */
  function LastListing(es: seq<Event>, initial: seq<FileEntry>): seq<FileEntry>
    decreases |es|
  {
    if es == [] then initial
    else if es[|es| - 1].ListingSucceeded? then es[|es| - 1].fs
    else LastListing(es[..|es| - 1], initial)
  }

  /** The lengths of the lists of the most recent successful comparison in `es`, else `initial`. */
  function LastComparison(es: seq<Event>, initial: (nat, nat)): (nat, nat)
    decreases |es|
  {
    if es == [] then initial
    else if es[|es| - 1].ComparisonSucceeded? then (|es[|es| - 1].aheadCommits|, |es[|es| - 1].behindCommits|)
    else LastComparison(es[..|es| - 1], initial)
  }

  /** `files` always holds the most recent successful listing: nothing accumulates. */
  lemma {:induction false} FilesAreLastListing(s: State, es: seq<Event>)
    ensures Run(s, es).files == LastListing(es, s.files)
    decreases |es|
  {
    if es != [] {
      FilesAreLastListing(s, es[..|es| - 1]);
    }
  }

  /** `ahead` and `behind` always hold the most recent successful comparison's counts. */
  lemma {:induction false} CountsAreLastComparison(s: State, es: seq<Event>)
    ensures (Run(s, es).ahead, Run(s, es).behind) == LastComparison(es, (s.ahead, s.behind))
    decreases |es|
  {
    if es != [] {
      CountsAreLastComparison(s, es[..|es| - 1]);
    }
  }

  lemma {:induction false} LastListingForgetsInitial(es: seq<Event>, a: seq<FileEntry>, b: seq<FileEntry>)
    requires exists i :: 0 <= i < |es| && es[i].ListingSucceeded?
    ensures LastListing(es, a) == LastListing(es, b)
    decreases |es|
  {
    var init := es[..|es| - 1];
    if !es[|es| - 1].ListingSucceeded? {
      var i :| 0 <= i < |es| && es[i].ListingSucceeded?;
      assert init[i].ListingSucceeded?;
      LastListingForgetsInitial(init, a, b);
    }
  }

  lemma {:induction false} LastComparisonForgetsInitial(es: seq<Event>, a: (nat, nat), b: (nat, nat))
    requires exists i :: 0 <= i < |es| && es[i].ComparisonSucceeded?
    ensures LastComparison(es, a) == LastComparison(es, b)
    decreases |es|
  {
    var init := es[..|es| - 1];
    if !es[|es| - 1].ComparisonSucceeded? {
      var i :| 0 <= i < |es| && es[i].ComparisonSucceeded?;
      assert init[i].ComparisonSucceeded?;
      LastComparisonForgetsInitial(init, a, b);
    }
  }

  lemma {:induction false} NoListingKeepsInitial(es: seq<Event>, a: seq<FileEntry>)
    requires forall i :: 0 <= i < |es| ==> !es[i].ListingSucceeded?
    ensures LastListing(es, a) == a
    decreases |es|
  {
    if es != [] {
      NoListingKeepsInitial(es[..|es| - 1], a);
    }
  }

  lemma {:induction false} NoComparisonKeepsInitial(es: seq<Event>, a: (nat, nat))
    requires forall i :: 0 <= i < |es| ==> !es[i].ComparisonSucceeded?
    ensures LastComparison(es, a) == a
    decreases |es|
  {
    if es != [] {
      NoComparisonKeepsInitial(es[..|es| - 1], a);
    }
  }

  /**
   * Replaying any sequence of events a second time leaves the entries and
   * the counts as the first replay left them: a response that arrives again
   * overwrites with the same value, and without one nothing changes.
   */
  lemma ReplayedLoadIsIdempotent(s: State, es: seq<Event>)
    ensures Run(Run(s, es), es).files == Run(s, es).files
    ensures Run(Run(s, es), es).ahead == Run(s, es).ahead && Run(Run(s, es), es).behind == Run(s, es).behind
  {
    var once := Run(s, es);
    FilesAreLastListing(s, es);
    FilesAreLastListing(once, es);
    CountsAreLastComparison(s, es);
    CountsAreLastComparison(once, es);
    if exists i :: 0 <= i < |es| && es[i].ListingSucceeded? {
      LastListingForgetsInitial(es, s.files, once.files);
    } else {
      NoListingKeepsInitial(es, s.files);
      NoListingKeepsInitial(es, once.files);
    }
    if exists i :: 0 <= i < |es| && es[i].ComparisonSucceeded? {
      LastComparisonForgetsInitial(es, (s.ahead, s.behind), (once.ahead, once.behind));
    } else {
      NoComparisonKeepsInitial(es, (s.ahead, s.behind));
      NoComparisonKeepsInitial(es, (once.ahead, once.behind));
    }
  }

  /** The output logs only grow. */
  lemma {:induction false} LogsOnlyGrow(s: State, es: seq<Event>)
    ensures s.notices <= Run(s, es).notices
    ensures s.pushed <= Run(s, es).pushed
    ensures s.requests <= Run(s, es).requests
    decreases |es|
  {
    if es != [] {
      LogsOnlyGrow(s, es[..|es| - 1]);
    }
  }

  // ------------------------------------------------------------- requests

  /** Every listing request carries a truthy project id; every comparison is between two different branches. */
  ghost predicate RequestsWellFormed(rs: seq<Request>)
  {
    forall i :: 0 <= i < |rs| ==>
      (rs[i].ListFiles? ==> rs[i].projectId != 0 && !rs[i].recursive) &&
      (rs[i].CompareBranches? ==> rs[i].baseBranch != rs[i].headBranch)
  }

  lemma EffectRequestsWellFormed(p: Props)
    ensures RequestsWellFormed(EffectRequests(p))
  {
    var rs := EffectRequests(p);
    assert forall i :: 0 <= i < |rs| ==> rs[i] in rs;
  }

  lemma WellFormedAppend(a: seq<Request>, b: seq<Request>)
    requires RequestsWellFormed(a) && RequestsWellFormed(b)
    ensures RequestsWellFormed(a + b)
  {
    assert forall i :: |a| <= i < |a + b| ==> (a + b)[i] == b[i - |a|];
  }

  lemma {:induction false} RequestsAreWellFormed(p: Props, es: seq<Event>)
    ensures RequestsWellFormed(Run(Mount(p), es).requests)
    decreases |es|
  {
    if es == [] {
      EffectRequestsWellFormed(p);
    } else {
      var init, e := es[..|es| - 1], es[|es| - 1];
      RequestsAreWellFormed(p, init);
      var s := Run(Mount(p), init);
      if e.Rendered? && Deps(e.p) != Deps(s.props) {
        EffectRequestsWellFormed(e.p);
        WellFormedAppend(s.requests, EffectRequests(e.p));
      }
    }
  }

  /** The loading flag is raised only after some listing request was issued. */
  lemma {:induction false} WaitingOnlyAfterListingRequest(p: Props, es: seq<Event>)
    ensures Run(Mount(p), es).waiting ==> exists r :: r in Run(Mount(p), es).requests && r.ListFiles?
    decreases |es|
  {
    if es != [] {
      var init := es[..|es| - 1];
      WaitingOnlyAfterListingRequest(p, init);
      var s := Run(Mount(p), init);
      LogsOnlyGrow(s, [es[|es| - 1]]);
      assert Run(s, [es[|es| - 1]]) == Run(Mount(p), es);
    }
  }

  // ------------------------------------------------- divergence and banner

  function ComparisonRequests(rs: seq<Request>): nat
    decreases |rs|
  {
    if rs == [] then 0
    else ComparisonRequests(rs[..|rs| - 1]) + (if rs[|rs| - 1].CompareBranches? then 1 else 0)
  }

  predicate IsComparisonReply(e: Event)
  {
    e.ComparisonSucceeded? || e.ComparisonFailed?
  }

  function ComparisonReplies(es: seq<Event>): nat
    decreases |es|
  {
    if es == [] then 0
    else ComparisonReplies(es[..|es| - 1]) + (if IsComparisonReply(es[|es| - 1]) then 1 else 0)
  }

  lemma {:induction false} ComparisonRequestsAppend(a: seq<Request>, b: seq<Request>)
    ensures ComparisonRequests(a + b) == ComparisonRequests(a) + ComparisonRequests(b)
    decreases |b|
  {
    if b == [] {
      assert a + b == a;
    } else {
      assert (a + b)[..|a + b| - 1] == a + b[..|b| - 1];
      ComparisonRequestsAppend(a, b[..|b| - 1]);
    }
  }

  lemma {:induction false} NoComparisonRequests(rs: seq<Request>)
    requires forall r :: r in rs ==> !r.CompareBranches?
    ensures ComparisonRequests(rs) == 0
    decreases |rs|
  {
    if rs != [] {
      assert forall r :: r in rs[..|rs| - 1] ==> r in rs;
      NoComparisonRequests(rs[..|rs| - 1]);
      assert rs[|rs| - 1] in rs;
    }
  }

  /**
   * The backend answers comparisons it was asked for: before every
   * comparison reply, fewer replies have arrived than requests were issued.
   */
  ghost predicate RepliesFollowRequests(p: Props, es: seq<Event>)
  {
    forall i :: 0 <= i < |es| && IsComparisonReply(es[i]) ==>
      ComparisonReplies(es[..i]) < ComparisonRequests(Run(Mount(p), es[..i]).requests)
  }

  /** A render whose shown branch is the default one. */
  predicate ShowsDefaultBranch(e: Event)
  {
    e.Rendered? ==> EffectiveBranch(e.p) == e.p.defaultBranch
  }

  /** A step that is no comparison reply, and renders only the default branch, adds no comparison and keeps the counts. */
  lemma DefaultStepAddsNoComparison(s: State, e: Event)
    requires ShowsDefaultBranch(e) && !IsComparisonReply(e)
    ensures ComparisonRequests(Step(s, e).requests) == ComparisonRequests(s.requests)
    ensures Step(s, e).ahead == s.ahead && Step(s, e).behind == s.behind
  {
    if e.Rendered? && Deps(e.p) != Deps(s.props) {
      NoComparisonRequests(EffectRequests(e.p));
      ComparisonRequestsAppend(s.requests, EffectRequests(e.p));
    }
  }

  /**
   * While the shown branch is the default branch, no comparison is
   * requested, so `ahead` and `behind` keep their initial 0 and no banner
   * is rendered, whatever the listing does.
   */
  lemma {:induction false} NoDivergenceOnDefaultBranch(p: Props, es: seq<Event>, mayCreateMergeRequest: bool)
    requires EffectiveBranch(p) == p.defaultBranch
    requires forall i :: 0 <= i < |es| ==> ShowsDefaultBranch(es[i])
    requires RepliesFollowRequests(p, es)
    ensures ComparisonRequests(Run(Mount(p), es).requests) == 0
    ensures Run(Mount(p), es).ahead == 0 && Run(Mount(p), es).behind == 0
    ensures ViewOf(Run(Mount(p), es), mayCreateMergeRequest).banner == None
    decreases |es|
  {
    if es == [] {
      NoComparisonRequests(EffectRequests(p));
    } else {
      var n := |es| - 1;
      var init, e := es[..n], es[n];
      assert forall i :: 0 <= i < |init| ==> init[i] == es[i];
      assert forall i :: 0 <= i < |init| ==> init[..i] == es[..i];
      NoDivergenceOnDefaultBranch(p, init, mayCreateMergeRequest);
      var s := Run(Mount(p), init);
      assert Run(Mount(p), es) == Step(s, e);
      assert IsComparisonReply(e) ==> ComparisonReplies(init) < ComparisonRequests(s.requests);
      DefaultStepAddsNoComparison(s, e);
    }
  }
}
