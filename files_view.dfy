/**
 * The stateless part of the `FilesContainer` view controller: which branch to
 * show, which requests the load effect issues, how listing rows are keyed,
 * how a click on a row is resolved, and which URLs the view produces.
 */
module FilesView {
  import opened Wrappers
  import opened UriComponent

  /**
   * The component's inputs. `projectId` is truthy when it is not 0;
   * `urlBranch` is None when the prop is undefined or null.
   */
  datatype Props = Props(
    projectId: int,
    path: string,
    urlBranch: Option<string>,
    defaultBranch: string,
    namespace: string,
    slug: string)

  /** One listing entry as the backend returns it; `kind` is "tree" or "blob". */
  datatype FileEntry = FileEntry(id: string, name: string, path: string, kind: string)

  /** A row handed to the table: the composite key, the name and the kind. */
  datatype Row = Row(key: string, name: string, kind: string)

  /** A `toastr.error(title, message)` notification; `message` is None for `undefined`. */
  datatype Notice = Notice(title: string, message: Option<string>)

  /** A request to the backend, recorded when the effect issues it. */
  datatype Request =
    | ListFiles(projectId: int, path: string, recursive: bool, branch: string)
    | CompareBranches(projectId: int, baseBranch: string, headBranch: string)

  /** What a click on a row leads to: a pushed location or an error notification. */
  datatype ClickOutcome = Navigate(url: string) | Refuse(notice: Notice)

  const ListingFailure := Notice("Error", Some("Something went wrong getting files"))
  const BrowseFailure := Notice("Error", Some("Something wrong browsing app"))

  // ------------------------------------------------------------ branch rule

  /** A URL branch is used when it is present, non-empty and not the literal "null". */
  predicate NamesBranch(urlBranch: Option<string>)
  {
    urlBranch.Some? && urlBranch.value != "" && urlBranch.value != "null"
  }

  /** `finalBranch`: the URL branch when it names one, otherwise the default branch. */
  function EffectiveBranch(p: Props): (b: string)
    ensures NamesBranch(p.urlBranch) ==> b == p.urlBranch.value
    ensures !NamesBranch(p.urlBranch) ==> b == p.defaultBranch
    ensures p.defaultBranch != "" ==> b != ""
    ensures b == "null" ==> p.defaultBranch == "null"
  {
    if NamesBranch(p.urlBranch) then p.urlBranch.value else p.defaultBranch
  }

  // ------------------------------------------------------------ load effect

  /** The requests one run of the load effect issues, in the order it issues them. */
  function EffectRequests(p: Props): (rs: seq<Request>)
    ensures |rs| <= 2
    ensures (exists r :: r in rs && r.ListFiles?) <==> p.projectId != 0
    ensures (exists r :: r in rs && r.CompareBranches?) <==> p.defaultBranch != EffectiveBranch(p)
    ensures forall r :: r in rs && r.ListFiles? ==> r == ListFiles(p.projectId, p.path, false, EffectiveBranch(p))
    ensures forall r :: r in rs && r.CompareBranches? ==>
      r == CompareBranches(p.projectId, p.defaultBranch, EffectiveBranch(p))
  {
    var branch := EffectiveBranch(p);
    var listing := if p.projectId != 0 then [ListFiles(p.projectId, p.path, false, branch)] else [];
    var comparison := if p.defaultBranch != branch then [CompareBranches(p.projectId, p.defaultBranch, branch)] else [];
    assert comparison != [] ==> comparison[0] in listing + comparison;
    assert listing != [] ==> listing[0] in listing + comparison;
    listing + comparison
  }

  // ----------------------------------------------------------------- rows

  /** The table row key `${id} ${name}`. */
  function RowKey(f: FileEntry): (k: string)
    ensures |k| == |f.id| + 1 + |f.name|
    ensures k[..|f.id|] == f.id && k[|f.id|] == ' ' && k[|f.id| + 1..] == f.name
  {
    f.id + " " + f.name
  }

  /** When backend ids hold no space, the row key determines the entry's id and name. */
  lemma RowKeyInjective(f: FileEntry, g: FileEntry)
    requires ' ' !in f.id && ' ' !in g.id
    requires RowKey(f) == RowKey(g)
    ensures f.id == g.id && f.name == g.name
  {
  }

  /** Without that condition two entries can share a key. */
  lemma RowKeyCollision()
    ensures RowKey(FileEntry("1 a", "b", "x", "blob")) == RowKey(FileEntry("1", "a b", "y", "blob"))
  {
  }

  /** The rows the table renders, one per entry, in listing order. */
  function Rows(files: seq<FileEntry>): (rows: seq<Row>)
    ensures |rows| == |files|
    ensures forall i :: 0 <= i < |files| ==>
      rows[i] == Row(RowKey(files[i]), files[i].name, files[i].kind)
  {
    if files == [] then [] else [Row(RowKey(files[0]), files[0].name, files[0].kind)] + Rows(files[1..])
  }

  // --------------------------------------------------------------- lookup

  /** `files.filter((f) => key(f) === targetId)`. */
  function Matches(files: seq<FileEntry>, targetId: string): (ms: seq<FileEntry>)
    ensures |ms| <= |files|
    ensures forall m :: m in ms ==> m in files && RowKey(m) == targetId
  {
    if files == [] then []
    else (if RowKey(files[0]) == targetId then [files[0]] else []) + Matches(files[1..], targetId)
  }

  /** The index of the first entry keyed `targetId`, or `|files|` when there is none. */
  function FirstMatch(files: seq<FileEntry>, targetId: string): (i: nat)
    ensures i <= |files|
    ensures forall j :: 0 <= j < i ==> RowKey(files[j]) != targetId
    ensures i < |files| ==> RowKey(files[i]) == targetId
  {
    if files == [] || RowKey(files[0]) == targetId then 0 else 1 + FirstMatch(files[1..], targetId)
  }

  /** The filter is empty exactly when nothing matches, and otherwise starts with the first match. */
  lemma {:induction false} MatchesStartAtFirstMatch(files: seq<FileEntry>, targetId: string)
    ensures Matches(files, targetId) == [] <==> FirstMatch(files, targetId) == |files|
    ensures Matches(files, targetId) != [] ==> Matches(files, targetId)[0] == files[FirstMatch(files, targetId)]
  {
    if files != [] && RowKey(files[0]) != targetId {
      MatchesStartAtFirstMatch(files[1..], targetId);
    }
  }

  /** `files.filter(...)[0]`: the first entry keyed `targetId`, if any. */
  function Lookup(files: seq<FileEntry>, targetId: string): (r: Option<FileEntry>)
    ensures r.None? <==> forall i :: 0 <= i < |files| ==> RowKey(files[i]) != targetId
    ensures r.Some? ==> exists i :: 0 <= i < |files| && files[i] == r.value && RowKey(files[i]) == targetId &&
                                   (forall j :: 0 <= j < i ==> RowKey(files[j]) != targetId)
  {
    var ms := Matches(files, targetId);
    MatchesStartAtFirstMatch(files, targetId);
    if ms == [] then None else Some(ms[0])
  }

  // ----------------------------------------------------------------- links

  /** The `data-key` attribute as the template literal renders it: a missing attribute is `null`. */
  function DataKeyText(dataKey: Option<string>): (text: string)
    ensures dataKey.Some? ==> text == dataKey.value
    ensures text == "null" <==> dataKey == None || dataKey == Some("null")
  {
    if dataKey.Some? then dataKey.value else "null"
  }

  /** `baseLink`: `/{namespace}/{slug}/-/{dataKey}`. */
  function BaseLink(p: Props, dataKey: Option<string>): (url: string)
    ensures url != [] && url[0] == '/'
    ensures |url| >= |DataKeyText(dataKey)| && url[|url| - |DataKeyText(dataKey)|..] == DataKeyText(dataKey)
  {
    "/" + p.namespace + "/" + p.slug + "/-/" + DataKeyText(dataKey)
  }

  /** The text after the last `/` of `u` (all of `u` when it has none). */
  function LastSegment(u: string): (seg: string)
    ensures '/' !in seg
    decreases |u|
  {
    if u == [] || u[|u| - 1] == '/' then [] else LastSegment(u[..|u| - 1]) + [u[|u| - 1]]
  }

  lemma {:induction false} LastSegmentAfterSlash(prefix: string, seg: string)
    requires prefix != [] && prefix[|prefix| - 1] == '/'
    requires '/' !in seg
    ensures LastSegment(prefix + seg) == seg
    decreases |seg|
  {
    var u := prefix + seg;
    if seg == [] {
      assert u == prefix;
    } else {
      var init, last := seg[..|seg| - 1], seg[|seg| - 1];
      assert u[|u| - 1] == last && last != '/';
      assert u[..|u| - 1] == prefix + init;
      LastSegmentAfterSlash(prefix, init);
      assert seg == init + [last];
    }
  }

  /** What the route puts between the base link and the encoded path. */
  function RouteInfix(p: Props, dataKey: Option<string>): (infix: string)
    ensures infix != [] && infix[|infix| - 1] == '/'
  {
    if dataKey == Some("tree") then "/" + EffectiveBranch(p) + "/" else "/branch/" + EffectiveBranch(p) + "/path/"
  }

  /**
   * The location a click on `f` pushes: the directory route
   * `{base}/{branch}/{path}` for the action "tree", the file route
   * `{base}/branch/{branch}/path/{path}` for any other action. Its last
   * segment is the entry's encoded path.
   */
  function NavigationLink(p: Props, dataKey: Option<string>, f: FileEntry): (url: string)
    ensures LastSegment(url) == EncodeURIComponent(f.path)
  {
    UnderSlashedPrefix(BaseLink(p, dataKey), RouteInfix(p, dataKey), EncodeURIComponent(f.path));
    BaseLink(p, dataKey) + RouteInfix(p, dataKey) + EncodeURIComponent(f.path)
  }

  /**
   * The navigation link lies under the action's base link, and its last
   * segment decodes back to exactly the entry's path.
   */
  lemma NavigationLinkCarriesPath(p: Props, dataKey: Option<string>, f: FileEntry)
    ensures BaseLink(p, dataKey) <= NavigationLink(p, dataKey, f)
    ensures DecodeURIComponent(LastSegment(NavigationLink(p, dataKey, f))) == Some(f.path)
  {
    UnderSlashedPrefix(BaseLink(p, dataKey), RouteInfix(p, dataKey), EncodeURIComponent(f.path));
    EncodeDecodeRoundTrip(f.path);
  }

  /** A segment without `/` appended after `base + middle`, where `middle` ends with `/`. */
  lemma UnderSlashedPrefix(base: string, middle: string, seg: string)
    requires middle != [] && middle[|middle| - 1] == '/'
    requires '/' !in seg
    ensures base <= base + middle + seg
    ensures LastSegment(base + middle + seg) == seg
  {
    var prefix := base + middle;
    assert prefix[|prefix| - 1] == '/';
    LastSegmentAfterSlash(prefix, seg);
    assert (prefix + seg)[..|base|] == base;
  }

  /** The merge-request shortcut: `/{namespace}/{slug}/-/merge_requests/new?merge_request[source_branch]={branch}`. */
  function MergeRequestLink(p: Props): (url: string)
    ensures |url| >= |EffectiveBranch(p)| && url[|url| - |EffectiveBranch(p)|..] == EffectiveBranch(p)
  {
    "/" + p.namespace + "/" + p.slug + "/-/merge_requests/new?merge_request[source_branch]=" + EffectiveBranch(p)
  }

  // ----------------------------------------------------------------- click

  /**
   * The row click handler: the first entry whose key is `targetId` decides
   * the location; when there is none, an error notification instead.
   */
  function OnClick(p: Props, files: seq<FileEntry>, targetId: string, dataKey: Option<string>): (r: ClickOutcome)
    ensures r.Refuse? <==> forall i :: 0 <= i < |files| ==> RowKey(files[i]) != targetId
    ensures r.Refuse? ==> r.notice == BrowseFailure
    ensures r.Navigate? ==> exists i :: 0 <= i < |files| && RowKey(files[i]) == targetId &&
                                       (forall j :: 0 <= j < i ==> RowKey(files[j]) != targetId) &&
                                       r.url == NavigationLink(p, dataKey, files[i])
  {
    match Lookup(files, targetId)
    case None => Refuse(BrowseFailure)
    case Some(f) => Navigate(NavigationLink(p, dataKey, f))
  }

  /** The filter's head is the entry at the first matching index. */
  lemma LookupIsFirstMatch(files: seq<FileEntry>, targetId: string)
    ensures var i := FirstMatch(files, targetId);
            Lookup(files, targetId) == if i < |files| then Some(files[i]) else None
  {
    MatchesStartAtFirstMatch(files, targetId);
  }

  /** A click whose id some entry's key matches navigates to the first such entry. */
  lemma ClickOnFirstMatch(p: Props, files: seq<FileEntry>, targetId: string, dataKey: Option<string>)
    requires exists i :: 0 <= i < |files| && RowKey(files[i]) == targetId
    ensures FirstMatch(files, targetId) < |files|
    ensures OnClick(p, files, targetId, dataKey) ==
              Navigate(NavigationLink(p, dataKey, files[FirstMatch(files, targetId)]))
  {
    LookupIsFirstMatch(files, targetId);
  }

  /**
   * A click on a rendered row always navigates; when the listing's keys are
   * distinct it navigates to that row's own entry.
   */
  lemma RenderedRowNavigates(p: Props, files: seq<FileEntry>, i: nat, dataKey: Option<string>)
    requires i < |files|
    ensures OnClick(p, files, Rows(files)[i].key, dataKey).Navigate?
    ensures (forall j, k :: 0 <= j < k < |files| ==> RowKey(files[j]) != RowKey(files[k])) ==>
      OnClick(p, files, Rows(files)[i].key, dataKey) == Navigate(NavigationLink(p, dataKey, files[i]))
  {
    var key := Rows(files)[i].key;
    assert RowKey(files[i]) == key;
    var first := FirstMatch(files, key);
    LookupIsFirstMatch(files, key);
    assert first <= i;
    assert OnClick(p, files, key, dataKey) == Navigate(NavigationLink(p, dataKey, files[first]));
    if first < i {
      assert RowKey(files[first]) == RowKey(files[i]);
    }
  }

  /** The directory example: entry `src/app` on branch `dev` of project `acme/widgets`. */
  lemma TreeLinkExample(p: Props, f: FileEntry)
    requires p.namespace == "acme" && p.slug == "widgets" && p.urlBranch == Some("dev")
    requires f.path == "src" + "/" + "app"
    ensures NavigationLink(p, Some("tree"), f) ==
              "/" + "acme" + "/" + "widgets" + "/-/" + "tree" + ("/" + "dev" + "/") + ("src" + "%2F" + "app")
  {
    EncodeExample();
  }

  /** The file example: the same entry opened through any other action. */
  lemma BlobLinkExample(p: Props, f: FileEntry, action: string)
    requires p.namespace == "acme" && p.slug == "widgets" && p.urlBranch == Some("dev")
    requires f.path == "src" + "/" + "app" && action != "tree"
    ensures NavigationLink(p, Some(action), f) ==
              "/" + "acme" + "/" + "widgets" + "/-/" + action + ("/branch/" + "dev" + "/path/") + ("src" + "%2F" + "app")
  {
    EncodeExample();
  }
}
