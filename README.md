# Broken-link cleanup of post revisions, modelled in Dafny

A Discourse plugin job, `Jobs::CleanupBrokenLinks`, runs every day. It looks at the
post revisions in its scope: every revision on the first run (no lock file yet),
otherwise those created yesterday. For each revision it:

1. decodes the `modifications` field;
2. joins all its values into one text;
3. extracts the `http(s)://` links from that text;
4. probes the links in order with HEAD requests, stopping at the first answer of 404 or 500;
5. on a broken link, destroys the revision and enqueues a search reindex of its topic.

A failure while handling one revision is logged and the loop goes on.

The project models that job:

- `links.dfy` (module `LinkExtraction`): `extract_links`, i.e. the expression
  `text.scan(%r{https?://[^\s"'<>\]]+})`, as a scanner over characters. It proves
  that the scanner computes the leftmost, greedy, non-overlapping scan, and that
  this scan is unique.
- `modifications.dfy` (module `Modifications`): `parse_modifications`, and
  `.values.flatten.join(" ")` over a small model of Ruby values. A hash keeps its
  insertion order.
- `cleanup_broken_links.dfy` (module `CleanupBrokenLinks`):
  - the status rule of `check_broken_link`;
  - the probe loop and its `break`, as a method;
  - the fate of one revision, as a function `Decide` returning a `Verdict`;
  - a class `Forum` holding the revisions table, the job queue (topic ids) and the
    lock file. Its methods `CheckRevision`, `CheckRevisions` and `Execute` are the
    job's imperative steps, each proved against the specification functions
    `Decide`, `RemovedIds`, `Reindexed`, `Without` and `Scope`.
- `scenarios.dfy` (module `Scenarios`): one revision with one dead, live or timing-out link.
- `wrappers.dfy`: `Option`, for Ruby's `nil`.

Collaborators the job calls are parameters, collected in `Env`:

- `yaml`: YAML decoding. `None` means `YAML.safe_load` raised.
- `probe`: what probing a URL meets.
  - `Responded(code)` is an answer.
  - `TransportError` is an exception inside the probe's own `begin`/`rescue`. It reads as 500.
  - `InvalidUri` is `URI.parse` or `Net::HTTP.new` raising. Both run before that
    `rescue`, so the exception reaches the per-revision `rescue`.
- `destroyRaises`: whether `revision.destroy` raises.

`Execute` also takes:

- `inWindow`, which decides whether a creation time lies in yesterday's window;
- `now`, the text written to the lock file.

Two behaviours of the code worth noting:

- A URL that `URI.parse` rejects does not read as status 500. The exception is raised
  before `check_broken_link`'s `rescue`. It reaches the per-revision `rescue`, so the
  revision is left in place (`Errored`), even when it has a topic.
- The character class also stops a link at `]`, not only at white space, quotes and
  angle brackets. Ruby's `\s` is taken as the six ASCII white-space characters.

## Model

| member | source | states |
|---|---|---|
| `LinkExtraction.RunEnd` | app/jobs/scheduled/cleanup_broken_links.rb:95 | The greedy run `[^\s"'<>\]]+` from a position has only accepted characters and ends at the end of the text or at a rejected character. |
| `LinkExtraction.SchemesExclusive` | app/jobs/scheduled/cleanup_broken_links.rb:95 | `http://` and `https://` never start at the same position, so `https?` has one reading per position. |
| `LinkExtraction.MatchAt` | app/jobs/scheduled/cleanup_broken_links.rb:95 | The match at a position, if the regular expression matches there, and then the longest one. If it gives none, no end position matches. |
| `LinkExtraction.MaximalMatchIsMatchAt` | app/jobs/scheduled/cleanup_broken_links.rb:95 | A match at a position that cannot be extended is the one `MatchAt` finds, so the greedy match is unique. |
| `LinkExtraction.ScanFrom` | app/jobs/scheduled/cleanup_broken_links.rb:95 | The scan yields spans in text order that do not overlap. Each span is a maximal match of the expression. |
| `LinkExtraction.ScanFromIsScan` | app/jobs/scheduled/cleanup_broken_links.rb:95 | The scanner meets the leftmost-greedy specification `IsScan`. No match starts before a span (counting from where the previous span ended) or after the last span. |
| `LinkExtraction.IsScanUnique` | app/jobs/scheduled/cleanup_broken_links.rb:95 | Only one list of spans meets `IsScan`, and it is the scanner's. |
| `LinkExtraction.ScanCharacterised` | app/jobs/scheduled/cleanup_broken_links.rb:95 | Both directions: a list of spans meets `IsScan` exactly when it is the scanner's result. |
| `LinkExtraction.MatchIsLink` | app/jobs/scheduled/cleanup_broken_links.rb:95 | A matched text starts with `http://` or `https://`, has at least one more character, and contains no white space, `"`, `'`, `<`, `>` or `]`. |
| `LinkExtraction.ExtractLinks` | app/jobs/scheduled/cleanup_broken_links.rb:93-96 | A `nil` text gives no links. Every extracted link has the shape just described. |
| `LinkExtraction.NoLinksIff` | app/jobs/scheduled/cleanup_broken_links.rb:93-96 | A text gives no links exactly when the expression matches at no position of it (both directions). |
| `LinkExtraction.NoSchemeNoLinks` | app/jobs/scheduled/cleanup_broken_links.rb:93-96 | A text containing neither `http://` nor `https://` gives `[]`, and so does `nil`. |
| `LinkExtraction.NoMatchWithoutH` | app/jobs/scheduled/cleanup_broken_links.rb:95 | No match starts at a position whose character is not `h`. |
| `LinkExtraction.MatchIsLocal` | app/jobs/scheduled/cleanup_broken_links.rb:95 | Whether the expression matches a stretch of text depends only on the characters of that stretch (both directions). |
| `LinkExtraction.MatchInside` | app/jobs/scheduled/cleanup_broken_links.rb:95 | A match inside a piece of a larger text is a match in the larger text, at the shifted position. |
| `LinkExtraction.SpaceBlocksMatch` | app/jobs/scheduled/cleanup_broken_links.rb:95 | No match spans a space. |
| `Scenarios.GluedLinkFound` | app/jobs/scheduled/cleanup_broken_links.rb:95 | There is no word boundary: in `"xhttp://a"` the link `http://a` is found, starting at its scheme. |
| `Modifications.ParseModifications` | app/jobs/scheduled/cleanup_broken_links.rb:99-102 | A blank field decodes to `{}`. A string goes through YAML, and a string YAML rejects decodes to `{}` instead of raising. Anything else is returned unchanged. |
| `Modifications.IsBlank` | app/jobs/scheduled/cleanup_broken_links.rb:100 | Rails `blank?` on the field (nil, false, an empty hash or array, a string of Unicode white space only). A predicate with no contract of its own: `ParseModifications` and `CleanupBrokenLinks.UndecodableSkipped` state what it decides. |
| `Modifications.Values` | app/jobs/scheduled/cleanup_broken_links.rb:40 | `.values` exists exactly on a hash and returns its values in insertion order. |
| `Modifications.FlattenValue` | app/jobs/scheduled/cleanup_broken_links.rb:40 | Flattening one value leaves no array in the result. `FlattenValueLeaves` states its content: exactly the non-array values nested in it at any depth. |
| `Modifications.Flatten` | app/jobs/scheduled/cleanup_broken_links.rb:40 | `flatten` leaves no array in the result. `FlattenLeaves` states its content: exactly the non-array values nested in the list at any depth. |
| `Modifications.FlattenAppend` | app/jobs/scheduled/cleanup_broken_links.rb:40 | Flattening distributes over concatenation, so the leaves keep the order of the values they come from. |
| `Modifications.FlattenFlat` | app/jobs/scheduled/cleanup_broken_links.rb:40 | Values holding no array are their own flattening. |
| `Modifications.LeafOf` | app/jobs/scheduled/cleanup_broken_links.rb:40 | A non-array value nested in a value at any depth (the value itself when it is not an array). A predicate with no contract of its own, defined independently of `flatten`; `FlattenValueLeaves` relates the two. |
| `Modifications.FlattenValueLeaves` | app/jobs/scheduled/cleanup_broken_links.rb:40 | Both directions: a value is in the flattening of `v` exactly when it is a non-array value nested in `v` at some depth. Nothing nested is dropped and nothing is added. |
| `Modifications.FlattenLeaves` | app/jobs/scheduled/cleanup_broken_links.rb:40 | Both directions: a value is in `flatten` of a list exactly when it is nested at some depth in one of the list's elements. |
| `Modifications.Render` | app/jobs/scheduled/cleanup_broken_links.rb:40 | `to_s` of one non-array element as `join` takes it. No contract of its own; `CleanupBrokenLinks.JoinAvoids` and `Scenarios.EditedRevisionLinks` state what rendering gives. |
| `Modifications.Join` | app/jobs/scheduled/cleanup_broken_links.rb:40 | `join(" ")` of the flattened leaves. No contract of its own; `CleanupBrokenLinks.JoinKeeps` states that every element's text appears in it, `JoinAvoids` that the separators create no word, and `JoinNoMatch` and `JoinMatchFromElement` that it holds a link exactly when some element's text does. |
| `Modifications.TextContent` | app/jobs/scheduled/cleanup_broken_links.rb:40 | `modifications.values.flatten.join(" ")`, or none where `.values` raises. No contract of its own; `Modifications.TextContentShape` states it. |
| `Modifications.TextContentShape` | app/jobs/scheduled/cleanup_broken_links.rb:40 | A text exists exactly when the decoded field is a hash, and an empty hash gives the empty text. |
| `CleanupBrokenLinks.CheckBrokenLink` | app/jobs/scheduled/cleanup_broken_links.rb:76-90 | An answer gives its status. An exception inside the probe gives 500. Only an invalid URI makes the probe raise. |
| `CleanupBrokenLinks.IsBrokenStatus` | app/jobs/scheduled/cleanup_broken_links.rb:52 | `[404, 500].include?(status)`. A predicate with no contract of its own; `CleanupBrokenLinks.BrokenOutcomes` states which outcomes it makes broken. |
| `CleanupBrokenLinks.BrokenOutcomes` | app/jobs/scheduled/cleanup_broken_links.rb:52 | An answer is broken exactly when its status is 404 or 500, so 403, 410 and 503 never count. A transport exception counts as broken. An invalid URI is not "broken" but still ends the loop. |
| `CleanupBrokenLinks.StopIndex` | app/jobs/scheduled/cleanup_broken_links.rb:47-56 | The index of the first link at which probing stops, or the number of links if none: no earlier link stops, and the link at that index does. |
| `CleanupBrokenLinks.Attempted` | app/jobs/scheduled/cleanup_broken_links.rb:47-56 | The probed links are a prefix of the extracted links, in order. No link but the last stops. When not every link was probed, the last probed one stopped the loop. |
| `CleanupBrokenLinks.AttemptedUnique` | app/jobs/scheduled/cleanup_broken_links.rb:47-56 | Any prefix with those properties is the probed prefix: probing short-circuits at the first stop and nowhere else. |
| `CleanupBrokenLinks.ProbeLinks` | app/jobs/scheduled/cleanup_broken_links.rb:47-56 | The loop with `break` probes exactly `Attempted`. `broken_found` holds exactly when some probed link is broken (404 or 500). The loop is left by an exception exactly when some probed URL is invalid. The two never hold together. |
| `CleanupBrokenLinks.RevisionLinks` | app/jobs/scheduled/cleanup_broken_links.rb:39-42 | The links of one revision, or none where reading its field raises. No contract of its own; `CleanupBrokenLinks.RevisionLinksShape` states it. |
| `CleanupBrokenLinks.RevisionLinksShape` | app/jobs/scheduled/cleanup_broken_links.rb:39-42 | The links can be read exactly when the decoded field is a hash, and each of them is a link. |
| `CleanupBrokenLinks.Decide` | app/jobs/scheduled/cleanup_broken_links.rb:38-70 | The verdict on one revision, from the revision and the collaborators alone. No contract of its own; `RemovedIff`, `ErroredOrSkipped`, `HealthyLinksKept`, `HealthyMeansAllProbed` and `FirstLinkBroken` state it. |
| `CleanupBrokenLinks.ErroredOrSkipped` | app/jobs/scheduled/cleanup_broken_links.rb:39-43 | A field that cannot be read leaves the revision as it was. A revision is skipped without a probe exactly when its text has no link. |
| `CleanupBrokenLinks.BrokenAtStop` | app/jobs/scheduled/cleanup_broken_links.rb:47-58 | Some probed link is broken exactly when the loop stopped at a link that is broken (rather than at an invalid URI, or not at all). |
| `CleanupBrokenLinks.BrokenFound` | app/jobs/scheduled/cleanup_broken_links.rb:47-58 | `broken_found` after the loop. A predicate with no contract of its own; `BrokenAtStop` and `RemovedIff` state it. |
| `CleanupBrokenLinks.RemovedIff` | app/jobs/scheduled/cleanup_broken_links.rb:58-66 | A revision is removed, with its own topic id queued, exactly when a probed link is broken, it has a topic id, and destroying it does not raise. A broken revision without a topic id is left in place (`Orphaned`), and exactly those are. |
| `CleanupBrokenLinks.HealthyLinksKept` | app/jobs/scheduled/cleanup_broken_links.rb:47-58 | If every link answers with a status other than 404 and 500, every link is probed and the revision is kept. |
| `CleanupBrokenLinks.HealthyMeansAllProbed` | app/jobs/scheduled/cleanup_broken_links.rb:47-58 | Conversely, a kept revision had links, all of them were probed, and none stopped the loop. |
| `CleanupBrokenLinks.FirstLinkBroken` | app/jobs/scheduled/cleanup_broken_links.rb:48-66 | If the first link is broken, or its probe raises (read as 500), only that link is probed. The revision is then removed when it has a topic and destroying it does not raise, and is orphaned without a topic. |
| `CleanupBrokenLinks.JoinAvoids` | app/jobs/scheduled/cleanup_broken_links.rb:40 | A word without spaces that occurs in no element's text does not occur in the `join(" ")` of them. |
| `CleanupBrokenLinks.JoinKeeps` | app/jobs/scheduled/cleanup_broken_links.rb:40 | Every element's text occurs in the `join(" ")`, at an offset the lemma returns. |
| `CleanupBrokenLinks.JoinKeepsWords` | app/jobs/scheduled/cleanup_broken_links.rb:40 | The converse of `JoinAvoids`: a word that occurs in some element's text occurs in the join. |
| `CleanupBrokenLinks.JoinNoMatch` | app/jobs/scheduled/cleanup_broken_links.rb:40 | If no element's text contains a match of the link expression, neither does their `join(" ")`: a match cannot span a separator, because a space stops it. |
| `CleanupBrokenLinks.JoinMatchFromElement` | app/jobs/scheduled/cleanup_broken_links.rb:40 | A match of the link expression in some element's text is a match in the join. |
| `CleanupBrokenLinks.LeafMatches` | app/jobs/scheduled/cleanup_broken_links.rb:95 | A non-array value whose text contains a match of the link expression. A predicate with no contract of its own; `NoLinksIffNoLeafMatch` uses it. |
| `CleanupBrokenLinks.NoLinksIffNoLeafMatch` | app/jobs/scheduled/cleanup_broken_links.rb:39-43 | Both directions: a revision is skipped as having no links exactly when its field decodes to a hash and no value nested in that hash at any depth has a text containing a match of the link expression. |
| `CleanupBrokenLinks.UndecodableSkipped` | app/jobs/scheduled/cleanup_broken_links.rb:39-43 | A blank field, or a string YAML rejects, reads as `{}`. Such a revision has no links and is skipped without a probe. |
| `CleanupBrokenLinks.NoSchemeSkipped` | app/jobs/scheduled/cleanup_broken_links.rb:40-43 | A revision none of whose texts contains `http://` or `https://` has no links and is skipped: no probe, no delete, no enqueue. |
| `CleanupBrokenLinks.Without` | app/jobs/scheduled/cleanup_broken_links.rb:63 | The table after destroying a set of ids, with the other records in their order. Its own ensures is only a length bound; `WithoutMembers`, `WithoutNothing` and `WithoutWithout` state what it computes. |
| `CleanupBrokenLinks.WithoutMembers` | app/jobs/scheduled/cleanup_broken_links.rb:63 | After destroying a set of ids, a record remains exactly when it was there and its id is not in the set. No other record is touched. |
| `CleanupBrokenLinks.WithoutNothing` | app/jobs/scheduled/cleanup_broken_links.rb:63 | Destroying no id leaves the table as it was. |
| `CleanupBrokenLinks.WithoutWithout` | app/jobs/scheduled/cleanup_broken_links.rb:63 | Destroying one set of ids and then another is destroying their union. |
| `CleanupBrokenLinks.CreatedIn` | app/jobs/scheduled/cleanup_broken_links.rb:24 | `where(created_at: yesterday)`, in table order. Its own ensures is only a length bound; `ScopeMembers` states which revisions it selects. |
| `CleanupBrokenLinks.Scope` | app/jobs/scheduled/cleanup_broken_links.rb:18-25 | The `if is_first_run` choice of scope: a first run's scope is the whole table, and a scope is never larger than the table. `ScopeMembers` states its members. |
| `CleanupBrokenLinks.ScopeMembers` | app/jobs/scheduled/cleanup_broken_links.rb:18-25 | The scope of a first run is every revision. Otherwise it is exactly the revisions created in yesterday's window. |
| `CleanupBrokenLinks.SweepStep` | app/jobs/scheduled/cleanup_broken_links.rb:37-71 | Handling one more revision adds only that revision's removal and that revision's topic, if any. |
| `CleanupBrokenLinks.SweepAdvance` | app/jobs/scheduled/cleanup_broken_links.rb:37-71 | The same step stated on the table: after one more revision it is the previous table, less that revision when its verdict is `Removed`. |
| `CleanupBrokenLinks.RemovedIds` | app/jobs/scheduled/cleanup_broken_links.rb:37-70 | The ids the sweep destroys. No contract of its own; `RemovedIdsExact` states it. |
| `CleanupBrokenLinks.Reindexed` | app/jobs/scheduled/cleanup_broken_links.rb:37-70 | The topic ids the sweep enqueues, in scope order. No contract of its own; `ReindexedTopics` states it. |
| `CleanupBrokenLinks.RemovedIdsExact` | app/jobs/scheduled/cleanup_broken_links.rb:37-70 | The destroyed ids are exactly the ids of the scope's revisions whose own verdict is `Removed`, whatever the other revisions do, including those that raise. |
| `CleanupBrokenLinks.UniqueIds` | app/jobs/scheduled/cleanup_broken_links.rb:36 | Ids are primary keys: no two records share one. A predicate with no contract of its own; `WithoutKeepsUniqueIds` and `Forum.Valid` keep it. |
| `CleanupBrokenLinks.WithoutKeepsUniqueIds` | app/jobs/scheduled/cleanup_broken_links.rb:63 | Destroying records keeps the ids unique. |
| `CleanupBrokenLinks.RunRemovesOwnVerdicts` | app/jobs/scheduled/cleanup_broken_links.rb:16-26 | Error isolation, record by record. With unique ids, a run keeps a record exactly when it is not a revision of the scope whose own verdict is `Removed`. No other record is touched. |
| `CleanupBrokenLinks.ReindexedTopics` | app/jobs/scheduled/cleanup_broken_links.rb:62-65 | A topic is queued for reindexing exactly when some revision of that topic in the scope was removed. |
| `CleanupBrokenLinks.ReindexedWitness` | app/jobs/scheduled/cleanup_broken_links.rb:62-65 | Every queued topic comes from a revision of the scope, at the returned index, whose verdict is `Removed` of that topic. |
| `CleanupBrokenLinks.RemovedTopicReindexed` | app/jobs/scheduled/cleanup_broken_links.rb:62-65 | The topic of every removed revision of the scope is queued. |
| `CleanupBrokenLinks.NothingRemovedNothingChanges` | app/jobs/scheduled/cleanup_broken_links.rb:35-73 | A sweep in which no revision is removed (for example, all links healthy) leaves both the table and the queue unchanged. |
| `CleanupBrokenLinks.SecondRunChangesNothing` | app/jobs/scheduled/cleanup_broken_links.rb:12-31 | Consider a second run with the same collaborators over a scope no wider than the first: a first run followed by any run, or two daily runs over one window. It destroys nothing and enqueues nothing. |
| `CleanupBrokenLinks.Forum.Destroy` | app/jobs/scheduled/cleanup_broken_links.rb:63 | `revision.destroy` removes the record with that id, keeps the ids unique and changes nothing else. |
| `CleanupBrokenLinks.Forum.Enqueue` | app/jobs/scheduled/cleanup_broken_links.rb:65 | `Jobs.enqueue` appends exactly one topic id to the queue and changes nothing else. |
| `CleanupBrokenLinks.Forum.CheckRevision` | app/jobs/scheduled/cleanup_broken_links.rb:38-70 | One revision: when `Decide` says `Removed(t)`, that revision is destroyed and exactly `t` is appended to the queue. Otherwise the table and the queue are as they were. The list of probed links is `Attempted` of the revision's links, and empty when there are none or the field cannot be read. |
| `CleanupBrokenLinks.Forum.CheckRevisions` | app/jobs/scheduled/cleanup_broken_links.rb:35-73 | The whole sweep: the table loses exactly `RemovedIds(scope)`, the queue gains `Reindexed(scope)` in scope order, and the lock is untouched. |
| `CleanupBrokenLinks.Forum.Execute` | app/jobs/scheduled/cleanup_broken_links.rb:12-31 | No lock file means a sweep over every revision, after which the lock holds `now`. An existing lock means a sweep over yesterday's window, and the lock stays as it was. Afterwards a record remains exactly when it was there and is not a revision of the scope whose own verdict is `Removed`. |
| `Scenarios.EditLinks` | app/jobs/scheduled/cleanup_broken_links.rb:95 | `"old https://dead.example/x new"` gives exactly `["https://dead.example/x"]`. |
| `Scenarios.EditedRevisionLinks` | app/jobs/scheduled/cleanup_broken_links.rb:39-42 | A revision whose `raw` edit is that text has exactly that one link. |
| `Scenarios.DeadLinkRemoved` | app/jobs/scheduled/cleanup_broken_links.rb:47-66 | When that link answers 404, the revision is removed and topic 42 is reindexed. |
| `Scenarios.LiveLinkKept` | app/jobs/scheduled/cleanup_broken_links.rb:47-58 | When that link answers 200, the revision is kept and nothing is enqueued. |
| `Scenarios.TimeoutRemoved` | app/jobs/scheduled/cleanup_broken_links.rb:83-89 | When the probe of that link raises (a timeout), it reads as 500 and the revision is removed and topic 42 is reindexed. |

## Left out

- HTTP probing (`Net::HTTP`, SSL, the 5-second timeouts): network I/O. Its result is the `probe` oracle, and `response.code.to_i` is folded into the integer the oracle returns.
- How a URL becomes a request: local and deterministic, but not modelled. The request is `request_head(uri.path)`, so the query string is never sent. A link with an empty path (`https://example.com`, `https://example.com?q=1`) makes the request constructor raise inside the `begin`, so it always reads as 500 and as broken. The `probe` oracle allows that outcome (`TransportError`) but does not force it for such links.
- Flaky or time-dependent answers: `probe` is a fixed function of the URL. Two probes of one URL therefore agree: a link repeated in one revision (links are not deduplicated), the same URL in another revision, and the same URL on a later run, which `SecondRunChangesNothing` assumes by taking the same collaborators.
- `YAML.safe_load`: a foreign library. It is the `yaml` oracle, a partial function returning `Option`.
- The lock file's path and `Time.now`: filesystem and clock. The lock is an `Option<string>` field, and `now` is a parameter of `Execute`.
- `1.day.ago.beginning_of_day..1.day.ago.end_of_day`, the time zone and the `daily at: 7.hours` schedule: clock and scheduler. The window is the predicate `inWindow`, so that boundary is not modelled.
- `find_in_batches` and `BATCH_SIZE`: batching does not change the result. The sequence `Forum.revisions` stands for the table in the order `find_in_batches` reads it, by primary key, and the model makes one pass over the scope in that order. That the sequence is sorted by id is not checked: `Forum.Valid` requires only that ids are unique.
- `Rails.logger` calls: logging only.
- The asynchronous side of `Jobs.enqueue`: a foreign queue. Only the enqueued topic ids are kept.
- `revision.destroy` returning false without raising: not modelled. A destroy either deletes or raises (`destroyRaises`).
- Other places a revision can raise: not modelled. Examples are a database error while reading `revision.post`, an exception in `Jobs.enqueue` after the destroy, `join(" ")` raising `Encoding::CompatibilityError` on mixed encodings, and `text.scan` raising `ArgumentError` on invalid UTF-8. A Dafny `string` holds only valid characters and has no encoding, so the last two cannot arise in the model. The modelled raising paths are `.values` on a non-hash, an invalid URI, and a failing destroy. Each leaves the revision as it was.
- `to_s` of elements other than strings, `nil` and booleans (numbers, symbols, nested hashes): Ruby's rendering rules are not modelled. Such an element is `Scalar(rendered)`, which carries its text.
- Runs that overlap, and the job being killed mid-sweep: concurrency and process control are outside the model.
- `plugin.rb`: plugin registration, an asset and an empty route block, with no logic to model.
