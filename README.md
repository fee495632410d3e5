# FilesContainer — a verified model

This project models the repository-listing view controller `FilesContainer`
of the MLReef web front end
(`web/src/components/FilesContainer/FilesContainer.jsx`). The component:

- decides which branch to show (`finalBranch`);
- on mount, and whenever its dependencies change, requests the file listing
  (only when `projectId` is truthy) and a branch comparison (only when the
  shown branch is not the default branch);
- keeps four state slots (`waiting`, `files`, `ahead`, `behind`);
- renders a divergence banner, with a merge-request shortcut for developers;
- turns a click on a listing row into a navigation to a directory or file
  route, with the entry's path passed through `encodeURIComponent`.

Modules:

- `Wrappers` holds `Option`, which stands for JavaScript's `undefined`/`null`.
- `UriComponent` is ECMAScript's `encodeURIComponent` over Unicode scalar
  values. It writes the UTF-8 octets (RFC 3629) percent-encoded with
  upper-case hex digits (section 2.1 of RFC 3986). Its partner is a
  `decodeURIComponent` model, and the round trip between the two is proved.
- `FilesView` holds the stateless rules. These are the branch rule, the
  requests one effect run issues, the row key `${id} ${name}`, the
  `filter(...)[0]` lookup, the two navigation URL templates, the
  merge-request link and the click outcome.
- `Container` holds the specification (`State`, `Event`, `Step`, `Run`,
  `ViewOf`) and the class `FilesContainer`. The class's fields are the state
  slots, the current props and the output logs: notifications, pushed
  locations and issued requests. Its constructor is the first render. Each
  of its event methods (`Render`, `ListingOk`, `ListingFail`, `CompareOk`,
  `CompareFail`, `Click`) is proved to perform `Step` on the abstract state.
- `ContainerProperties` holds the lemmas about single events and about
  whole event sequences.

Inputs and outputs:

- The two backend calls become issued `Request` records. Their results come
  back as the events `ListingSucceeded`, `ListingFailed`,
  `ComparisonSucceeded` and `ComparisonFailed`.
- `toastr.error` becomes the `notices` log.
- `history.push` becomes the `pushed` log.
- The `AuthWrapper` role check becomes the boolean `mayCreateMergeRequest`.

Notes on the code's behaviour:

- A failed comparison reports `err?.message` as it is. The code supplies no
  fallback text, so the notice's message may be absent (`None`).
- The listing is requested when `projectId` is truthy, so a project id of 0
  issues no listing. The comparison is still requested with that id.
- The effect runs again only when `[projectId, path, finalBranch,
  defaultBranch]` changes. A render with the same dependencies issues
  nothing.

## Model

| member | source | states |
|---|---|---|
| `UriComponent.EncodeChar` | web/src/components/FilesContainer/FilesContainer.jsx:106 | An unreserved character (`A-Z a-z 0-9 - _ . ! ~ * ' ( )`) is kept. Any other ASCII character becomes `%XY` in upper-case hex. Every output character is unreserved, `%` or a hex digit. |
| `UriComponent.EncodeURIComponent` | web/src/components/FilesContainer/FilesContainer.jsx:106 | The encoded path uses only unreserved characters, `%` and upper-case hex digits, so it contains no `/`. It is never shorter than the input. |
| `UriComponent.Utf8RoundTrip` | web/src/components/FilesContainer/FilesContainer.jsx:106 | The UTF-8 octets of every scalar value form one well-formed sequence, and it decodes back to that value. |
| `UriComponent.EncodeDecodeRoundTrip` | web/src/components/FilesContainer/FilesContainer.jsx:106 | `decodeURIComponent(encodeURIComponent(s)) == s` for every string. |
| `UriComponent.EncodeAppend` | web/src/components/FilesContainer/FilesContainer.jsx:106 | The encoding of a concatenation is the concatenation of the encodings. |
| `UriComponent.UnescapedUnchanged` | web/src/components/FilesContainer/FilesContainer.jsx:106 | A string made only of unreserved characters is encoded as itself. |
| `UriComponent.EncodeSlash` | web/src/components/FilesContainer/FilesContainer.jsx:106 | A `/` inside a path is encoded as `%2F`, and the parts around it are encoded independently. |
| `UriComponent.EncodeExample` | web/src/components/FilesContainer/FilesContainer.jsx:106 | `src/app` is encoded as `src%2Fapp`. |
| `FilesView.EffectiveBranch` | web/src/components/FilesContainer/FilesContainer.jsx:23 | The shown branch is the URL branch when that is present, non-empty and not `"null"`, and the default branch otherwise. It is non-empty when the default branch is. It is `"null"` only when the default branch is. |
| `FilesView.EffectRequests` | web/src/components/FilesContainer/FilesContainer.jsx:26-46 | One effect run requests a listing iff `projectId` is truthy, for (projectId, path, non-recursive, shown branch). It requests a comparison iff the default branch differs from the shown branch, for (projectId, default, shown), whatever `projectId` is. It issues at most two requests. |
| `FilesView.RowKey` | web/src/components/FilesContainer/FilesContainer.jsx:93 | A row key is the id, then one space, then the name. |
| `FilesView.RowKeyInjective` | web/src/components/FilesContainer/FilesContainer.jsx:93 | When ids contain no space, equal row keys mean equal id and name. |
| `FilesView.RowKeyCollision` | web/src/components/FilesContainer/FilesContainer.jsx:93 | Ids that contain spaces can make two different entries share a key. |
| `FilesView.Rows` | web/src/components/FilesContainer/FilesContainer.jsx:93 | There is one row per entry, in listing order, carrying that entry's key, name and type. |
| `FilesView.Matches` | web/src/components/FilesContainer/FilesContainer.jsx:100 | The filter keeps only entries of the listing whose key is the clicked id. |
| `FilesView.FirstMatch` | web/src/components/FilesContainer/FilesContainer.jsx:100 | This reference definition gives the index of the first entry keyed with the clicked id, or the listing's length when there is none. |
| `FilesView.MatchesStartAtFirstMatch` | web/src/components/FilesContainer/FilesContainer.jsx:100 | The filter is empty iff no entry matches. Otherwise its head is the entry at the first matching index. |
| `FilesView.Lookup` | web/src/components/FilesContainer/FilesContainer.jsx:100 | `filter(...)[0]` is absent iff no key matches. Otherwise it is an entry whose key matches and no earlier entry's key matches. |
| `FilesView.LookupIsFirstMatch` | web/src/components/FilesContainer/FilesContainer.jsx:100 | The lookup returns exactly the entry at `FirstMatch`. |
| `FilesView.LastSegmentAfterSlash` | web/src/components/FilesContainer/FilesContainer.jsx:107-109 | When `prefix` ends with `/` and `seg` has no `/`, the text after the last `/` of `prefix + seg` is `seg`. |
| `FilesView.DataKeyText` | web/src/components/FilesContainer/FilesContainer.jsx:98-101 | The `data-key` attribute as the template literal renders it: its value when present, and `null` when missing, so a missing attribute and the value `"null"` give the same text. |
| `FilesView.BaseLink` | web/src/components/FilesContainer/FilesContainer.jsx:101 | The base link starts with `/` and ends with the rendered `data-key` text, i.e. the action. |
| `FilesView.NavigationLink` | web/src/components/FilesContainer/FilesContainer.jsx:106-109 | The link is the base link, then `/{branch}/` for action `tree` or `/branch/{branch}/path/` for any other action, then the encoded path; its last segment is exactly the encoded path. |
| `FilesView.NavigationLinkCarriesPath` | web/src/components/FilesContainer/FilesContainer.jsx:101-109 | Both link templates start with the base link `/{ns}/{slug}/-/{action}`, and the link's last segment decodes back to the entry's path. |
| `FilesView.TreeLinkExample` | web/src/components/FilesContainer/FilesContainer.jsx:107-108 | Action `tree` uses the directory template `/{ns}/{slug}/-/tree/{branch}/{enc(path)}`: entry `src/app` on branch `dev` of `acme/widgets` gives `/acme/widgets/-/tree/dev/src%2Fapp`. |
| `FilesView.BlobLinkExample` | web/src/components/FilesContainer/FilesContainer.jsx:107-109 | Any other action uses the file template `/{ns}/{slug}/-/{action}/branch/{branch}/path/{enc(path)}`: the same entry gives `/acme/widgets/-/{action}/branch/dev/path/src%2Fapp`. |
| `FilesView.MergeRequestLink` | web/src/components/FilesContainer/FilesContainer.jsx:84 | The merge-request shortcut ends with the shown branch, which is its `source_branch`. |
| `FilesView.OnClick` | web/src/components/FilesContainer/FilesContainer.jsx:100-110 | A click is refused iff no entry's key is the clicked id, and then it gives "Something wrong browsing app". Otherwise it navigates to the link of the first matching entry. |
| `FilesView.ClickOnFirstMatch` | web/src/components/FilesContainer/FilesContainer.jsx:100-110 | When some key matches, the click navigates to the link of the entry at `FirstMatch`. |
| `FilesView.RenderedRowNavigates` | web/src/components/FilesContainer/FilesContainer.jsx:93-110 | A click on any rendered row always navigates. When the listing's keys are distinct, it navigates to that row's own entry. |
| `Container.DepsDetermineEffect` | web/src/components/FilesContainer/FilesContainer.jsx:47 | The dependency list `[projectId, path, finalBranch, defaultBranch]` (`Deps`) holds every input of the effect: props with equal dependencies issue the same requests and leave the same state. |
| `Container.Effect` | web/src/components/FilesContainer/FilesContainer.jsx:25-46 | An effect run appends the effect's requests. It raises `waiting` only when `projectId` is truthy and leaves `files`, `ahead` and `behind` alone. |
| `Container.Mount` | web/src/components/FilesContainer/FilesContainer.jsx:19-47 | After the first render, `files` is empty, `ahead` and `behind` are 0, `waiting` holds iff `projectId` is truthy, and the effect's requests are issued. |
| `Container.Step` | web/src/components/FilesContainer/FilesContainer.jsx:25-110 | Only a render whose dependencies changed issues requests, and a render with unchanged dependencies only records the props. Only a listing success writes `files`. Only a comparison success writes `ahead`/`behind`. Both listing completions clear `waiting`. Only a click pushes a location. Every log only grows, and `notices` and `pushed` grow by at most one entry per event. |
| `Container.Outcome` | web/src/components/FilesContainer/FilesContainer.jsx:102-110 | A navigation appends its url to `pushed` and a refusal appends its notice to `notices`; nothing else changes. |
| `Container.ViewOf` | web/src/components/FilesContainer/FilesContainer.jsx:49-95 | The banner shows iff `ahead > 0 \|\| behind > 0` and carries the counts and the default branch. It holds the merge-request link `MergeRequestLink` iff the viewer may create one. The "return" option shows iff the path is non-empty. The loading flag is `waiting`. The rows are exactly `Rows(files)`: one per entry, in order. |
| `Container.FilesContainer.constructor` | web/src/components/FilesContainer/FilesContainer.jsx:15-47 | The first render leaves the component in `Mount(p)`. |
| `Container.FilesContainer.RunEffect` | web/src/components/FilesContainer/FilesContainer.jsx:25-46 | The effect body performs `Effect` on the component's state. |
| `Container.FilesContainer.Render` | web/src/components/FilesContainer/FilesContainer.jsx:25-47 | A re-render performs `Step` for `Rendered(p)`. |
| `Container.FilesContainer.ListingOk` | web/src/components/FilesContainer/FilesContainer.jsx:34-36 | `files` becomes the response and `waiting` becomes false, as `Step` prescribes. |
| `Container.FilesContainer.ListingFail` | web/src/components/FilesContainer/FilesContainer.jsx:35-36 | `files` is kept, "Something went wrong getting files" is reported and `waiting` becomes false. |
| `Container.FilesContainer.CompareOk` | web/src/components/FilesContainer/FilesContainer.jsx:41-44 | `ahead` and `behind` become the lengths of the two commit lists. |
| `Container.FilesContainer.CompareFail` | web/src/components/FilesContainer/FilesContainer.jsx:45 | `ahead` and `behind` are kept and the error's message (possibly absent) is reported. |
| `Container.FilesContainer.Click` | web/src/components/FilesContainer/FilesContainer.jsx:96-111 | A click performs `Step` for `Clicked(id, dataKey)`: push the link of the first match, or report the error. |
| `ContainerProperties.ListingSuccessReplacesFiles` | web/src/components/FilesContainer/FilesContainer.jsx:34-36 | A listing success replaces `files` with the response, clears `waiting` and reports nothing. |
| `ContainerProperties.ListingFailureKeepsFiles` | web/src/components/FilesContainer/FilesContainer.jsx:35-36 | A listing failure keeps `files`, appends the fixed notice and clears `waiting`. |
| `ContainerProperties.ComparisonSuccessSetsCounts` | web/src/components/FilesContainer/FilesContainer.jsx:41-49 | A comparison success sets `ahead`/`behind` to the list lengths. The banner then shows iff either list is non-empty. |
| `ContainerProperties.ComparisonFailureKeepsCounts` | web/src/components/FilesContainer/FilesContainer.jsx:45 | A comparison failure keeps the counts and appends `Notice("Error", err?.message)`. |
| `ContainerProperties.UnmatchedClickReported` | web/src/components/FilesContainer/FilesContainer.jsx:100-105 | A click matching no key changes nothing except appending "Something wrong browsing app". |
| `ContainerProperties.MatchedClickNavigates` | web/src/components/FilesContainer/FilesContainer.jsx:100-110 | A click matching some key changes nothing except pushing the first matching entry's link. |
| `ContainerProperties.RenderTwiceIsRenderOnce` | web/src/components/FilesContainer/FilesContainer.jsx:47 | Rendering the same props twice in succession equals rendering them once, so no duplicate requests are issued. |
| `ContainerProperties.FilesAreLastListing` | web/src/components/FilesContainer/FilesContainer.jsx:34 | After any event sequence, `files` is the most recent listing response, or the initial entries when there was none. |
| `ContainerProperties.CountsAreLastComparison` | web/src/components/FilesContainer/FilesContainer.jsx:41-44 | After any event sequence, `ahead`/`behind` are the list lengths of the most recent comparison success, or the initial counts. |
| `ContainerProperties.LastListingForgetsInitial` | web/src/components/FilesContainer/FilesContainer.jsx:34 | Once a sequence contains a listing success, its last listing does not depend on what came before. |
| `ContainerProperties.LastComparisonForgetsInitial` | web/src/components/FilesContainer/FilesContainer.jsx:41-44 | Once a sequence contains a comparison success, its last counts do not depend on what came before. |
| `ContainerProperties.ReplayedLoadIsIdempotent` | web/src/components/FilesContainer/FilesContainer.jsx:34-44 | Replaying any event sequence a second time leaves `files`, `ahead` and `behind` as one replay left them. Nothing accumulates. |
| `ContainerProperties.LogsOnlyGrow` | web/src/components/FilesContainer/FilesContainer.jsx:25-110 | Notifications, pushed locations and issued requests are only ever appended to. |
| `ContainerProperties.RequestsAreWellFormed` | web/src/components/FilesContainer/FilesContainer.jsx:26-46 | Every issued listing request has a truthy project id and is non-recursive. Every comparison compares two different branches. |
| `ContainerProperties.WaitingOnlyAfterListingRequest` | web/src/components/FilesContainer/FilesContainer.jsx:26-36 | `waiting` is true only after a listing request has been issued. |
| `ContainerProperties.ComparisonRequestsAppend` | web/src/components/FilesContainer/FilesContainer.jsx:39-46 | The count of comparison requests is additive over concatenation. |
| `ContainerProperties.DefaultStepAddsNoComparison` | web/src/components/FilesContainer/FilesContainer.jsx:39-46 | An event that is no comparison reply, and renders only the default branch, issues no comparison and keeps `ahead` and `behind`. |
| `ContainerProperties.NoDivergenceOnDefaultBranch` | web/src/components/FilesContainer/FilesContainer.jsx:20-53 | Suppose every render shows the default branch and comparison replies only answer issued requests. Then no comparison is ever requested, `ahead` and `behind` stay 0, and no banner is rendered. |

## Left out

- The JSX layout is not modelled: the banner's wording, the `FilesTable` widget, its `headers`, and how the loading indicator is drawn. The view keeps only the flags and values they show.
- `prop-types` and `defaultProps` are not modelled. `path` is always a string here, and `projectId` is an integer; NaN is not modelled.
- `FilesApi.getFilesPerProject` and `filesContainerActions.compareBranchesFunction` are not part of this model. Their calls are recorded as `Request` values, and their results arrive as events.
- A comparison response that lacks `ahead` or `behind` is not modelled. In the code that throws inside `then`, and the `catch` reports the error.
- `toastr` and `history` are foreign side effects. They appear only as the `notices` and `pushed` logs.
- `AuthWrapper` and `ACCESS_LEVEL` are not part of this model. The developer-role check is the boolean `mayCreateMergeRequest`.
- Interleaving of in-flight requests is not covered. Completion events apply in the order given and carry no request generation. So a stale response overwrites the state exactly as it does in the code, and no property about request freshness is claimed.
- `UriComponent.EncodeURIComponent` has no behaviour for lone UTF-16 surrogates, where the ECMAScript function throws a URIError. A Dafny string holds only Unicode scalar values, so such strings cannot be written.
- A `null` event target, where `getAttribute` itself would throw, is not modelled.
- Entry ids are taken as strings, that is, in the form the template literal renders them.
