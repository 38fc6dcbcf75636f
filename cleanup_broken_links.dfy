/**
 * The scheduled job `Jobs::CleanupBrokenLinks`: for each post revision in
 * scope, extract the links of its modifications, probe them in order until
 * one is broken, and delete a revision with a broken link (queueing a search
 * reindex of its topic). The network, YAML, the clock and the lock file are
 * replaced by oracles and plain state.
 */
module CleanupBrokenLinks {
  import opened Wrappers
  import opened LinkExtraction
  import opened Modifications

  // ---------------------------------------------------------------- probing

  /** What probing one URL meets. */
  datatype ProbeOutcome =
      /** The HEAD request was answered with this status (`response.code.to_i`). */
    | Responded(code: int)
      /** The request raised (DNS failure, timeout, refused connection, ...); rescued inside the probe. */
    | TransportError
      /** `URI.parse` or `Net::HTTP.new` raised: this happens before the probe's own rescue, so it escapes. */
    | InvalidUri

  /** `check_broken_link`: the status it returns, or None where it raises. */
  function CheckBrokenLink(o: ProbeOutcome): (status: Option<int>)
    ensures status.None? <==> o.InvalidUri?
    ensures o.TransportError? ==> status == Some(500)
    ensures o.Responded? ==> status == Some(o.code)
  {
    match o
    case Responded(code) => Some(code)
    case TransportError => Some(500)
    case InvalidUri => None
  }

  /** `[404, 500].include?(status)`. */
  predicate IsBrokenStatus(status: int) {
    status == 404 || status == 500
  }

  predicate IsBroken(o: ProbeOutcome) {
    CheckBrokenLink(o).Some? && IsBrokenStatus(CheckBrokenLink(o).value)
  }

  /** Probing stops at this link: it is broken, or its probe raised out of the loop. */
  predicate Stops(o: ProbeOutcome) {
    o.InvalidUri? || IsBroken(o)
  }

  /** A probe that raises reads as 500 and so as broken; no status other than 404 and 500 is broken. */
  lemma BrokenOutcomes(o: ProbeOutcome)
    ensures o.TransportError? ==> IsBroken(o)
    ensures o.Responded? ==> (IsBroken(o) <==> o.code == 404 || o.code == 500)
    ensures o.InvalidUri? ==> !IsBroken(o) && Stops(o)
  {
  }

  /** The index of the first link at which probing stops, or the number of links when none does. */
  function StopIndex(links: seq<string>, probe: string -> ProbeOutcome): (n: nat)
    ensures n <= |links|
    ensures forall k :: 0 <= k < n ==> !Stops(probe(links[k]))
    ensures n < |links| ==> Stops(probe(links[n]))
    decreases |links|
  {
    if links == [] || Stops(probe(links[0])) then 0
    else 1 + StopIndex(links[1..], probe)
  }

  /** The links the probe loop hands to `check_broken_link`, in order. */
  function Attempted(links: seq<string>, probe: string -> ProbeOutcome): (r: seq<string>)
    ensures r <= links
    ensures forall k :: 0 <= k < |r| - 1 ==> !Stops(probe(r[k]))
    ensures |r| < |links| ==> |r| > 0 && Stops(probe(r[|r| - 1]))
  {
    var n := StopIndex(links, probe);
    if n < |links| then links[..n + 1] else links
  }

  /** The attempted links are the one prefix with no stop before its last link that ends at a stop or covers all links. */
  lemma AttemptedUnique(links: seq<string>, probe: string -> ProbeOutcome, r: seq<string>)
    requires r <= links
    requires forall k :: 0 <= k < |r| - 1 ==> !Stops(probe(r[k]))
    requires |r| < |links| ==> |r| > 0 && Stops(probe(r[|r| - 1]))
    ensures r == Attempted(links, probe)
  {
    assert forall k :: 0 <= k < |r| ==> r[k] == links[k];
  }

  /**
   * The probe loop of `check_revisions`: probe each link in order, stop at
   * the first broken one (`broken_found = true; break`), or leave the loop
   * when the probe raises.
   */
  method ProbeLinks(links: seq<string>, probe: string -> ProbeOutcome) returns (broken: bool, escaped: bool, attempted: seq<string>)
    ensures attempted == Attempted(links, probe)
    ensures broken <==> exists k :: 0 <= k < |attempted| && IsBroken(probe(attempted[k]))
    ensures escaped <==> exists k :: 0 <= k < |attempted| && probe(attempted[k]).InvalidUri?
    ensures !(broken && escaped)
  {
    broken, escaped, attempted := false, false, [];
    var i := 0;
    while i < |links|
      invariant 0 <= i <= |links|
      invariant attempted == links[..i]
      invariant forall k :: 0 <= k < i ==> !Stops(probe(links[k]))
    {
      var outcome := probe(links[i]);
      attempted := attempted + [links[i]];
      if outcome.InvalidUri? {
        escaped := true;
        break;
      }
      var status := CheckBrokenLink(outcome).value;
      if IsBrokenStatus(status) {
        broken := true;
        break;
      }
      i := i + 1;
    }
  }

  // ------------------------------------------------------ one revision

  /** A `PostRevision` as the job reads it; `topicId` is `revision.post&.topic_id` (None: no post, or no topic). */
  datatype Revision = Revision(id: int, modifications: Doc, topicId: Option<int>, createdAt: int)

  /**
   * The collaborators the job calls: YAML decoding (None where it raises),
   * the outcome of probing a URL, and whether destroying a revision raises.
   */
  datatype Env = Env(yaml: string -> Option<Doc>, probe: string -> ProbeOutcome, destroyRaises: int -> bool)

  /** The links of a revision, or None where reading its modifications raises (`.values` on a non-hash). */
  function RevisionLinks(rev: Revision, env: Env): Option<seq<string>> {
    match TextContent(ParseModifications(rev.modifications, env.yaml))
    case Some(text) => Some(ExtractLinks(Some(text)))
    case None => None
  }

  /** The links of a revision can be read exactly when its decoded modifications are a hash, and each is a link. */
  lemma RevisionLinksShape(rev: Revision, env: Env)
    ensures RevisionLinks(rev, env).Some? <==> ParseModifications(rev.modifications, env.yaml).Hash?
    ensures RevisionLinks(rev, env).Some? ==>
      forall k :: 0 <= k < |RevisionLinks(rev, env).value| ==> IsLink(RevisionLinks(rev, env).value[k])
  {
  }

  /** What the job does with one revision. */
  datatype Verdict =
      /** An exception reached the per-revision `rescue`; the revision is left as it was. */
    | Errored
      /** No link in the text: skipped before any probe. */
    | NoLinks
      /** Every link probed, none broken. */
    | Healthy
      /** A broken link, but no topic id: left in place. */
    | Orphaned
      /** Destroyed, and a reindex of this topic enqueued. */
    | Removed(topic: int)

  /** The fate of one revision, decided from the revision and the collaborators alone. */
  function Decide(rev: Revision, env: Env): Verdict {
    match RevisionLinks(rev, env)
    case None => Errored
    case Some(links) =>
      if links == [] then NoLinks
      else
        var n := StopIndex(links, env.probe);
        if n == |links| then Healthy
        else if env.probe(links[n]).InvalidUri? then Errored
        else if rev.topicId.None? then Orphaned
        else if env.destroyRaises(rev.id) then Errored
        else Removed(rev.topicId.value)
  }

  /**
   * A revision whose modifications cannot be read is left as it was, and a
   * revision is skipped without a probe exactly when its text has no link.
   */
  lemma ErroredOrSkipped(rev: Revision, env: Env)
    ensures RevisionLinks(rev, env).None? ==> Decide(rev, env) == Errored
    ensures Decide(rev, env) == NoLinks <==> RevisionLinks(rev, env) == Some([])
  {
  }

  /** Some probed link of the revision is broken (`broken_found`). */
  ghost predicate BrokenFound(rev: Revision, env: Env) {
    RevisionLinks(rev, env).Some? &&
    var attempted := Attempted(RevisionLinks(rev, env).value, env.probe);
    exists k :: 0 <= k < |attempted| && IsBroken(env.probe(attempted[k]))
  }

  /**
   * A revision is removed, with its own topic queued, exactly when a probed
   * link is broken, the revision has a topic id and destroying it does not raise.
   */
  lemma RemovedIff(rev: Revision, env: Env)
    ensures Decide(rev, env).Removed? <==>
      BrokenFound(rev, env) && rev.topicId.Some? && !env.destroyRaises(rev.id)
    ensures Decide(rev, env).Removed? ==> Decide(rev, env).topic == rev.topicId.value
    ensures Decide(rev, env) == Orphaned <==> BrokenFound(rev, env) && rev.topicId.None?
  {
    if RevisionLinks(rev, env).Some? {
      BrokenAtStop(RevisionLinks(rev, env).value, env.probe);
    }
  }

  /** Some probed link is broken exactly when the loop stopped at a broken link. */
  lemma BrokenAtStop(links: seq<string>, probe: string -> ProbeOutcome)
    ensures (exists k :: 0 <= k < |Attempted(links, probe)| && IsBroken(probe(Attempted(links, probe)[k]))) <==>
      StopIndex(links, probe) < |links| && IsBroken(probe(links[StopIndex(links, probe)]))
  {
    var attempted, n := Attempted(links, probe), StopIndex(links, probe);
    if n < |links| {
      assert attempted[n] == links[n];
    }
    assert forall k :: 0 <= k < |attempted| ==> attempted[k] == links[k];
  }

  /** A revision whose links all answer with statuses other than 404 and 500 is kept, and every link was probed. */
  lemma HealthyLinksKept(rev: Revision, env: Env)
    requires RevisionLinks(rev, env).Some? && RevisionLinks(rev, env).value != []
    requires forall l :: l in RevisionLinks(rev, env).value ==>
      env.probe(l).Responded? && !IsBrokenStatus(env.probe(l).code)
    ensures Decide(rev, env) == Healthy
    ensures Attempted(RevisionLinks(rev, env).value, env.probe) == RevisionLinks(rev, env).value
  {
    var links := RevisionLinks(rev, env).value;
    var n := StopIndex(links, env.probe);
    forall k | 0 <= k < |links| ensures !Stops(env.probe(links[k])) {
      assert links[k] in links;
    }
  }

  /** Conversely, a kept revision with links had every link probed, and none of them stopped the loop. */
  lemma HealthyMeansAllProbed(rev: Revision, env: Env)
    requires Decide(rev, env) == Healthy
    ensures RevisionLinks(rev, env).Some? && RevisionLinks(rev, env).value != []
    ensures forall k :: 0 <= k < |RevisionLinks(rev, env).value| ==> !Stops(env.probe(RevisionLinks(rev, env).value[k]))
    ensures Attempted(RevisionLinks(rev, env).value, env.probe) == RevisionLinks(rev, env).value
  {
  }

  /**
   * When the first link is broken, it is the only one probed; the revision
   * is removed when it has a topic and destroying it does not raise. A probe
   * that raises counts as broken (status 500).
   */
  lemma FirstLinkBroken(rev: Revision, env: Env)
    requires RevisionLinks(rev, env).Some? && RevisionLinks(rev, env).value != []
    requires IsBroken(env.probe(RevisionLinks(rev, env).value[0]))
    ensures Attempted(RevisionLinks(rev, env).value, env.probe) == [RevisionLinks(rev, env).value[0]]
    ensures rev.topicId.Some? && !env.destroyRaises(rev.id) ==> Decide(rev, env) == Removed(rev.topicId.value)
    ensures rev.topicId.None? ==> Decide(rev, env) == Orphaned
  {
  }

  /** `w` occurs somewhere in `s`. */
  predicate Occurs(s: string, w: string) {
    exists p: nat :: p <= |s| && HasAt(s, p, w)
  }

  /**
   * A word without a space that occurs in no element's text does not occur
   * in the joined text either: the separators cannot make one.
   */
  lemma {:induction false} JoinAvoids(vs: seq<Value>, w: string)
    requires forall k :: 0 <= k < |vs| ==> !vs[k].List?
    requires forall j :: 0 <= j < |w| ==> w[j] != ' '
    requires |w| > 0
    requires forall k :: 0 <= k < |vs| ==> !Occurs(Render(vs[k]), w)
    ensures forall p: nat :: p <= |Join(vs)| ==> !HasAt(Join(vs), p, w)
    decreases |vs|
  {
    if |vs| == 1 {
      assert !Occurs(Render(vs[0]), w);
    } else if |vs| > 1 {
      var s, r0, rest := Join(vs), Render(vs[0]), Join(vs[1..]);
      assert forall k :: 0 <= k < |vs| - 1 ==> vs[1..][k] == vs[k + 1];
      JoinAvoids(vs[1..], w);
      assert s == r0 + " " + rest;
      forall p: nat | p <= |s| ensures !HasAt(s, p, w) {
        if p + |w| <= |r0| {
          assert s[p..p + |w|] == r0[p..p + |w|];
          assert !HasAt(r0, p, w);
        } else if p <= |r0| {
          assert s[|r0|] == ' ';
          assert p + |w| <= |s| ==> s[p..p + |w|][|r0| - p] == ' ';
        } else {
          var q := p - |r0| - 1;
          assert p + |w| <= |s| ==> s[p..p + |w|] == rest[q..q + |w|];
          assert !HasAt(rest, q, w);
        }
      }
    }
  }

  /** Each element's text appears whole in the joined text, starting at `o`. */
  lemma {:induction false} JoinKeeps(vs: seq<Value>, k: nat) returns (o: nat)
    requires forall i :: 0 <= i < |vs| ==> !vs[i].List?
    requires k < |vs|
    ensures o + |Render(vs[k])| <= |Join(vs)|
    ensures Join(vs)[o..o + |Render(vs[k])|] == Render(vs[k])
    decreases |vs|
  {
    if |vs| == 1 {
      o := 0;
      assert Join(vs) == Render(vs[0]);
    } else {
      var r0, rest := Render(vs[0]), Join(vs[1..]);
      assert Join(vs) == r0 + " " + rest;
      if k == 0 {
        o := 0;
        BeforeSeparator(r0, rest, 0, |r0|);
      } else {
        var tail := vs[1..];
        assert tail[k - 1] == vs[k];
        var o1 := JoinKeeps(tail, k - 1);
        o := |r0| + 1 + o1;
        AfterSeparator(r0, rest, o1, |Render(vs[k])|);
      }
    }
  }

  /** The converse of `JoinAvoids`: a word that occurs in some element's text occurs in the joined text. */
  lemma JoinKeepsWords(vs: seq<Value>, k: nat, w: string)
    requires forall i :: 0 <= i < |vs| ==> !vs[i].List?
    requires k < |vs| && Occurs(Render(vs[k]), w)
    ensures Occurs(Join(vs), w)
  {
    var o := JoinKeeps(vs, k);
    OccursInside(Join(vs), Render(vs[k]), o, w);
  }

  /** A word occurring in a piece of a text occurs in the text. */
  lemma OccursInside(s: string, r: string, o: nat, w: string)
    requires o + |r| <= |s| && s[o..o + |r|] == r
    requires Occurs(r, w)
    ensures Occurs(s, w)
  {
    var p: nat :| p <= |r| && HasAt(r, p, w);
    assert p + |w| <= |r|;
    var piece, direct := s[o..o + |r|][p..p + |w|], s[o + p..o + p + |w|];
    forall i | 0 <= i < |piece| ensures piece[i] == direct[i] {
      assert piece[i] == s[o..o + |r|][p + i] == s[o + p + i];
    }
    assert piece == direct;
    assert HasAt(s, o + p, w);
  }

  /** The separators break every match: with no match in any element's text there is none in the joined text. */
  lemma {:induction false} JoinNoMatch(vs: seq<Value>)
    requires forall i :: 0 <= i < |vs| ==> !vs[i].List?
    requires forall i :: 0 <= i < |vs| ==> NoMatchIn(Render(vs[i]), 0, |Render(vs[i])|)
    ensures NoMatchIn(Join(vs), 0, |Join(vs)|)
    decreases |vs|
  {
    if |vs| == 1 {
      assert NoMatchIn(Render(vs[0]), 0, |Render(vs[0])|);
    } else if |vs| > 1 {
      var s, r0, rest := Join(vs), Render(vs[0]), Join(vs[1..]);
      assert forall i :: 0 <= i < |vs| - 1 ==> vs[1..][i] == vs[i + 1];
      JoinNoMatch(vs[1..]);
      assert s == r0 + " " + rest;
      assert NoMatchIn(r0, 0, |r0|);
      forall p: nat, e: nat | 0 <= p < |s| ensures !MatchesAt(s, p, e) {
        if p <= e <= |s| {
          if e <= |r0| {
            assert s[p..e] == r0[p..e];
            MatchIsLocal(s, p, e, r0, p);
          } else if p <= |r0| {
            assert s[|r0|] == ' ';
            SpaceBlocksMatch(s, p, e, |r0|);
          } else {
            var q := p - |r0| - 1;
            assert s[p..e] == rest[q..q + (e - p)];
            MatchIsLocal(s, p, e, rest, q);
          }
        }
      }
    }
  }

  /** A match inside an element's text is a match in the joined text. */
  lemma JoinMatchFromElement(vs: seq<Value>, k: nat, q: nat, f: nat)
    requires forall i :: 0 <= i < |vs| ==> !vs[i].List?
    requires k < |vs| && MatchesAt(Render(vs[k]), q, f)
    ensures !NoMatchIn(Join(vs), 0, |Join(vs)|)
  {
    var o := JoinKeeps(vs, k);
    MatchInside(Join(vs), Render(vs[k]), o, q, f);
    assert MatchesAt(Join(vs), o + q, o + f);
  }

  /** A value that is a leaf and in whose text the expression matches somewhere. */
  ghost predicate LeafMatches(x: Value) {
    !x.List? && !NoMatchIn(Render(x), 0, |Render(x)|)
  }

  /**
   * Every leaf of the decoded field reaches the scanned text: a revision is
   * skipped for want of links exactly when its field decodes to a hash and
   * no leaf of it, at any depth, holds a match.
   */
  lemma NoLinksIffNoLeafMatch(rev: Revision, env: Env)
    ensures Decide(rev, env) == NoLinks <==>
      Values(ParseModifications(rev.modifications, env.yaml)).Some? &&
      forall x :: LeafOfAny(x, Values(ParseModifications(rev.modifications, env.yaml)).value) ==> !LeafMatches(x)
  {
    ErroredOrSkipped(rev, env);
    var m := ParseModifications(rev.modifications, env.yaml);
    if Values(m).Some? {
      var vals := Values(m).value;
      var leaves := Flatten(vals);
      var text := Join(leaves);
      assert TextContent(m) == Some(text);
      NoLinksIff(text);
      forall x ensures LeafOfAny(x, vals) <==> x in leaves {
        FlattenLeaves(vals, x);
      }
      if forall x :: LeafOfAny(x, vals) ==> !LeafMatches(x) {
        forall i | 0 <= i < |leaves| ensures NoMatchIn(Render(leaves[i]), 0, |Render(leaves[i])|) {
          assert leaves[i] in leaves;
        }
        JoinNoMatch(leaves);
      } else {
        var x :| LeafOfAny(x, vals) && LeafMatches(x);
        var i :| 0 <= i < |leaves| && leaves[i] == x;
        var q, f :| 0 <= q < |Render(x)| && MatchesAt(Render(x), q, f);
        JoinMatchFromElement(leaves, i, q, f);
      }
    }
  }

  /**
   * A blank field, or a string YAML rejects, reads as `{}`: the revision is
   * skipped without a probe and without an error.
   */
  lemma UndecodableSkipped(rev: Revision, env: Env)
    requires IsBlank(rev.modifications) ||
      (IsString(rev.modifications) && env.yaml(rev.modifications.v.s).None?)
    ensures RevisionLinks(rev, env) == Some([])
    ensures Decide(rev, env) == NoLinks
  {
    assert ParseModifications(rev.modifications, env.yaml) == Hash([]);
    assert TextContent(Hash([])) == Some("");
    assert |ExtractLinks(Some(""))| == |ScanFrom("", 0)| == 0;
  }

  /** Neither scheme occurs in `s`. */
  predicate SchemeFree(s: string) {
    !Occurs(s, Http) && !Occurs(s, Https)
  }

  /**
   * A revision none of whose texts contains "http://" or "https://" is
   * skipped: no link, hence no probe, no delete and no enqueue.
   */
  lemma NoSchemeSkipped(rev: Revision, env: Env, vals: seq<Value>)
    requires Values(ParseModifications(rev.modifications, env.yaml)) == Some(vals)
    requires forall k :: 0 <= k < |Flatten(vals)| ==> SchemeFree(Render(Flatten(vals)[k]))
    ensures RevisionLinks(rev, env) == Some([])
    ensures Decide(rev, env) == NoLinks
  {
    var leaves := Flatten(vals);
    JoinAvoids(leaves, Http);
    JoinAvoids(leaves, Https);
    NoSchemeNoLinks(Join(leaves));
  }

  // ------------------------------------------------------------- the sweep

  /** The store after destroying every revision whose id is in `ids`; the others keep their order. */
  function Without(revs: seq<Revision>, ids: set<int>): (r: seq<Revision>)
    ensures |r| <= |revs|
    decreases |revs|
  {
    if revs == [] then []
    else (if revs[0].id in ids then [] else [revs[0]]) + Without(revs[1..], ids)
  }

  /** Destroying removes exactly the revisions with those ids and touches no other record. */
  lemma {:induction false} WithoutMembers(revs: seq<Revision>, ids: set<int>, x: Revision)
    ensures x in Without(revs, ids) <==> x in revs && x.id !in ids
    decreases |revs|
  {
    if revs != [] {
      WithoutMembers(revs[1..], ids, x);
      assert revs == [revs[0]] + revs[1..];
    }
  }

  /** `PostRevision.where(created_at: yesterday)`: the revisions created in the window, in order. */
  function CreatedIn(revs: seq<Revision>, inWindow: int -> bool): (r: seq<Revision>)
    ensures |r| <= |revs|
    decreases |revs|
  {
    if revs == [] then []
    else (if inWindow(revs[0].createdAt) then [revs[0]] else []) + CreatedIn(revs[1..], inWindow)
  }

  /** The scope of a run: every revision on a first run, else those created in yesterday's window. */
  function Scope(revs: seq<Revision>, firstRun: bool, inWindow: int -> bool): (r: seq<Revision>)
    ensures firstRun ==> r == revs
    ensures |r| <= |revs|
  {
    if firstRun then revs else CreatedIn(revs, inWindow)
  }

  /** The scope holds exactly the revisions of the store that the run looks at. */
  lemma {:induction false} ScopeMembers(revs: seq<Revision>, firstRun: bool, inWindow: int -> bool, x: Revision)
    ensures x in Scope(revs, firstRun, inWindow) <==> x in revs && (firstRun || inWindow(x.createdAt))
    decreases |revs|
  {
    if !firstRun && revs != [] {
      ScopeMembers(revs[1..], firstRun, inWindow, x);
      assert revs == [revs[0]] + revs[1..];
    }
  }

  /** The ids the sweep over `scope` destroys. */
  function RemovedIds(scope: seq<Revision>, env: Env): set<int>
    decreases |scope|
  {
    if scope == [] then {}
    else
      var last := scope[|scope| - 1];
      RemovedIds(scope[..|scope| - 1], env) + (if Decide(last, env).Removed? then {last.id} else {})
  }

  /** The topic ids the sweep over `scope` enqueues for reindexing, in order. */
  function Reindexed(scope: seq<Revision>, env: Env): seq<int>
    decreases |scope|
  {
    if scope == [] then []
    else
      var last := scope[|scope| - 1];
      Reindexed(scope[..|scope| - 1], env) +
        (if Decide(last, env).Removed? then [Decide(last, env).topic] else [])
  }

  /** One more revision of the scope adds its own removal and its own topic, if any. */
  lemma SweepStep(scope: seq<Revision>, i: nat, env: Env)
    requires i < |scope|
    ensures RemovedIds(scope[..i + 1], env) ==
      RemovedIds(scope[..i], env) + (if Decide(scope[i], env).Removed? then {scope[i].id} else {})
    ensures Reindexed(scope[..i + 1], env) ==
      Reindexed(scope[..i], env) + (if Decide(scope[i], env).Removed? then [Decide(scope[i], env).topic] else [])
  {
    assert scope[..i + 1][..i] == scope[..i];
  }

  /** The store after one more revision of the sweep, stated against the store before it. */
  lemma SweepAdvance(revs: seq<Revision>, scope: seq<Revision>, i: nat, env: Env)
    requires i < |scope|
    ensures Without(revs, RemovedIds(scope[..i + 1], env)) ==
      if Decide(scope[i], env).Removed? then Without(Without(revs, RemovedIds(scope[..i], env)), {scope[i].id})
      else Without(revs, RemovedIds(scope[..i], env))
    ensures Reindexed(scope[..i + 1], env) ==
      Reindexed(scope[..i], env) + (if Decide(scope[i], env).Removed? then [Decide(scope[i], env).topic] else [])
  {
    SweepStep(scope, i, env);
    if Decide(scope[i], env).Removed? {
      WithoutWithout(revs, RemovedIds(scope[..i], env), {scope[i].id});
    }
  }

  /**
   * Error isolation: a revision is destroyed exactly when its own verdict is
   * `Removed`, whatever happens to the other revisions in scope (including
   * those that raise).
   */
  lemma {:induction false} RemovedIdsExact(scope: seq<Revision>, env: Env)
    ensures RemovedIds(scope, env) == set r | r in scope && Decide(r, env).Removed? :: r.id
    decreases |scope|
  {
    if scope != [] {
      var init, last := scope[..|scope| - 1], scope[|scope| - 1];
      RemovedIdsExact(init, env);
      assert scope == init + [last];
    }
  }

  /** Primary keys: no two records of the table share an id. */
  ghost predicate UniqueIds(revs: seq<Revision>) {
    forall a, b :: a in revs && b in revs && a.id == b.id ==> a == b
  }

  /** Destroying records keeps the ids unique. */
  lemma WithoutKeepsUniqueIds(revs: seq<Revision>, ids: set<int>)
    requires UniqueIds(revs)
    ensures UniqueIds(Without(revs, ids))
  {
    forall a, b | a in Without(revs, ids) && b in Without(revs, ids) && a.id == b.id ensures a == b {
      WithoutMembers(revs, ids, a);
      WithoutMembers(revs, ids, b);
    }
  }

  /**
   * Error isolation, record by record: with unique ids, a run keeps a record
   * exactly when it is not a revision of the scope whose own verdict is
   * `Removed`; no other record is touched.
   */
  lemma RunRemovesOwnVerdicts(revs: seq<Revision>, firstRun: bool, inWindow: int -> bool, env: Env, x: Revision)
    requires UniqueIds(revs)
    ensures x in Without(revs, RemovedIds(Scope(revs, firstRun, inWindow), env)) <==>
      x in revs && !(x in Scope(revs, firstRun, inWindow) && Decide(x, env).Removed?)
  {
    var scope := Scope(revs, firstRun, inWindow);
    WithoutMembers(revs, RemovedIds(scope, env), x);
    RemovedIdsExact(scope, env);
    ScopeMembers(revs, firstRun, inWindow, x);
    if x in revs && x.id in RemovedIds(scope, env) {
      var r :| r in scope && Decide(r, env).Removed? && r.id == x.id;
      ScopeMembers(revs, firstRun, inWindow, r);
      assert r == x;
    }
  }

  /** A topic is enqueued exactly when some revision of that topic in scope is removed. */
  lemma ReindexedTopics(scope: seq<Revision>, env: Env, t: int)
    ensures t in Reindexed(scope, env) <==> exists r :: r in scope && Decide(r, env) == Removed(t)
  {
    if t in Reindexed(scope, env) {
      var i := ReindexedWitness(scope, env, t);
      assert scope[i] in scope;
    }
    if exists r :: r in scope && Decide(r, env) == Removed(t) {
      var r :| r in scope && Decide(r, env) == Removed(t);
      var i :| 0 <= i < |scope| && scope[i] == r;
      RemovedTopicReindexed(scope, env, i);
    }
  }

  /** Every enqueued topic comes from a removed revision of the scope. */
  lemma {:induction false} ReindexedWitness(scope: seq<Revision>, env: Env, t: int) returns (i: nat)
    requires t in Reindexed(scope, env)
    ensures i < |scope| && Decide(scope[i], env) == Removed(t)
    decreases |scope|
  {
    var init := scope[..|scope| - 1];
    if t in Reindexed(init, env) {
      i := ReindexedWitness(init, env, t);
      assert init[i] == scope[i];
    } else {
      i := |scope| - 1;
    }
  }

  /** The topic of every removed revision of the scope is enqueued. */
  lemma {:induction false} RemovedTopicReindexed(scope: seq<Revision>, env: Env, i: nat)
    requires i < |scope| && Decide(scope[i], env).Removed?
    ensures Decide(scope[i], env).topic in Reindexed(scope, env)
    decreases |scope|
  {
    var init := scope[..|scope| - 1];
    if i < |scope| - 1 {
      assert init[i] == scope[i];
      RemovedTopicReindexed(init, env, i);
    }
  }

  /** A sweep in which no revision is removed changes neither the store nor the queue. */
  lemma {:induction false} NothingRemovedNothingChanges(revs: seq<Revision>, scope: seq<Revision>, env: Env)
    requires forall r :: r in scope ==> !Decide(r, env).Removed?
    ensures RemovedIds(scope, env) == {} && Reindexed(scope, env) == []
    ensures Without(revs, RemovedIds(scope, env)) == revs
    decreases |scope|
  {
    if scope != [] {
      var init := scope[..|scope| - 1];
      assert forall r :: r in init ==> r in scope;
      NothingRemovedNothingChanges(revs, init, env);
    }
    WithoutNothing(revs);
  }

  /** Destroying no id changes nothing. */
  lemma {:induction false} WithoutNothing(revs: seq<Revision>)
    ensures Without(revs, {}) == revs
    decreases |revs|
  {
    if revs != [] {
      WithoutNothing(revs[1..]);
    }
  }

  /** Destroying two sets of ids one after the other is destroying their union. */
  lemma {:induction false} WithoutWithout(revs: seq<Revision>, a: set<int>, b: set<int>)
    ensures Without(Without(revs, a), b) == Without(revs, a + b)
    decreases |revs|
  {
    if revs != [] {
      WithoutWithout(revs[1..], a, b);
      var w := Without(revs[1..], a);
      if revs[0].id !in a {
        assert Without(revs, a) == [revs[0]] + w;
        assert ([revs[0]] + w)[1..] == w;
        assert Without([revs[0]] + w, b) == (if revs[0].id in b then [] else [revs[0]]) + Without(w, b);
      } else {
        assert Without(revs, a) == w;
      }
    }
  }

  /**
   * Running the job again with the same collaborators, over a scope no wider
   * than the first (a first run followed by anything, or two daily runs over
   * the same window), destroys nothing and enqueues nothing: every revision
   * a second run could remove was already removed by the first.
   */
  lemma SecondRunChangesNothing(revs: seq<Revision>, first1: bool, first2: bool, inWindow: int -> bool, env: Env)
    requires first1 || !first2
    ensures var after := Without(revs, RemovedIds(Scope(revs, first1, inWindow), env));
      var scope2 := Scope(after, first2, inWindow);
      RemovedIds(scope2, env) == {} && Reindexed(scope2, env) == [] &&
      Without(after, RemovedIds(scope2, env)) == after
  {
    var scope1 := Scope(revs, first1, inWindow);
    var after := Without(revs, RemovedIds(scope1, env));
    var scope2 := Scope(after, first2, inWindow);
    RemovedIdsExact(scope1, env);
    forall r | r in scope2 ensures !Decide(r, env).Removed? {
      ScopeMembers(after, first2, inWindow, r);
      WithoutMembers(revs, RemovedIds(scope1, env), r);
      ScopeMembers(revs, first1, inWindow, r);
    }
    NothingRemovedNothingChanges(after, scope2, env);
  }

  // ------------------------------------------------------------ the state

  /** The state the job reads and changes: the revisions table, the job queue and the lock file. */
  class Forum {
    /**
     * The `post_revisions` table, standing for the order in which
     * `find_in_batches` reads it (by primary key). Ids are primary keys, hence
     * unique (`Valid`); that the sequence is sorted by id is not checked.
     */
    var revisions: seq<Revision>
    /** The topic ids of the enqueued `reindex_search` jobs, oldest first. */
    var queue: seq<int>
    /** The content of `tmp/cleanup_broken_links.lock`; None while the file does not exist. */
    var lock: Option<string>

    /** The table's ids are unique. */
    ghost predicate Valid()
      reads this
    {
      UniqueIds(revisions)
    }

    constructor (revisions: seq<Revision>, queue: seq<int>, lock: Option<string>)
      requires UniqueIds(revisions)
      ensures Valid()
      ensures this.revisions == revisions && this.queue == queue && this.lock == lock
    {
      this.revisions, this.queue, this.lock := revisions, queue, lock;
    }

    /** `revision.destroy`. */
    method Destroy(id: int)
      requires Valid()
      modifies this
      ensures Valid()
      ensures revisions == Without(old(revisions), {id})
      ensures queue == old(queue) && lock == old(lock)
    {
      WithoutKeepsUniqueIds(revisions, {id});
      revisions := Without(revisions, {id});
    }

    /** `Jobs.enqueue(:reindex_search, topic_id: topic)`. */
    method Enqueue(topic: int)
      modifies this
      ensures queue == old(queue) + [topic]
      ensures revisions == old(revisions) && lock == old(lock)
    {
      queue := queue + [topic];
    }

    /**
     * The body of the per-revision loop of `check_revisions`, with its
     * `rescue`: every path that raises returns with nothing changed.
     * `attempted` is the list of links handed to `check_broken_link`.
     */
    method CheckRevision(rev: Revision, env: Env) returns (attempted: seq<string>)
      requires Valid()
      modifies this
      ensures Valid()
      ensures Decide(rev, env).Removed? ==>
        revisions == Without(old(revisions), {rev.id}) && queue == old(queue) + [Decide(rev, env).topic]
      ensures !Decide(rev, env).Removed? ==> revisions == old(revisions) && queue == old(queue)
      ensures lock == old(lock)
      ensures attempted == match RevisionLinks(rev, env)
        case Some(links) => Attempted(links, env.probe)
        case None => []
    {
      attempted := [];
      var modifications := ParseModifications(rev.modifications, env.yaml);
      var text := TextContent(modifications);
      if text.None? {
        return;  // `.values` raised
      }
      var links := ExtractLinks(Some(text.value));
      if links == [] {
        return;
      }
      var broken, escaped;
      broken, escaped, attempted := ProbeLinks(links, env.probe);
      ghost var n := StopIndex(links, env.probe);
      assert n < |links| ==> attempted[n] == links[n];
      if escaped {
        return;  // the probe raised out of the loop
      }
      if broken {
        var topicId := rev.topicId;
        if topicId.Some? {
          if env.destroyRaises(rev.id) {
            return;
          }
          Destroy(rev.id);
          Enqueue(topicId.value);
        }
      }
    }

    /** `check_revisions`: every revision of the scope in turn, one failure not stopping the loop. */
    method CheckRevisions(scope: seq<Revision>, env: Env)
      requires Valid()
      modifies this
      ensures Valid()
      ensures revisions == Without(old(revisions), RemovedIds(scope, env))
      ensures queue == old(queue) + Reindexed(scope, env)
      ensures lock == old(lock)
    {
      WithoutNothing(revisions);
      for i := 0 to |scope|
        invariant revisions == Without(old(revisions), RemovedIds(scope[..i], env))
        invariant queue == old(queue) + Reindexed(scope[..i], env)
        invariant lock == old(lock)
        invariant Valid()
      {
        SweepAdvance(old(revisions), scope, i, env);
        var attempted := CheckRevision(scope[i], env);
      }
      assert scope[..|scope|] == scope;
    }

    /**
     * `execute`: a missing lock file means a first run over every revision,
     * after which the lock is written with `now`; otherwise only yesterday's
     * revisions are checked and the lock stays as it was.
     */
    method Execute(env: Env, inWindow: int -> bool, now: string)
      requires Valid()
      modifies this
      ensures Valid()
      ensures lock == if old(lock).None? then Some(now) else old(lock)
      ensures revisions == Without(old(revisions), RemovedIds(Scope(old(revisions), old(lock).None?, inWindow), env))
      ensures queue == old(queue) + Reindexed(Scope(old(revisions), old(lock).None?, inWindow), env)
      ensures forall x :: x in revisions <==>
        x in old(revisions) && !(x in Scope(old(revisions), old(lock).None?, inWindow) && Decide(x, env).Removed?)
    {
      var isFirstRun := lock.None?;
      var scope := Scope(revisions, isFirstRun, inWindow);
      CheckRevisions(scope, env);
      forall x ensures x in revisions <==> x in old(revisions) && !(x in scope && Decide(x, env).Removed?) {
        RunRemovesOwnVerdicts(old(revisions), isFirstRun, inWindow, env, x);
      }
      if isFirstRun {
        lock := Some(now);
      }
    }
  }
}
