/**
 * End-to-end runs of the decision for one revision, with concrete
 * modifications and a topic id of 42: a dead link, a live link and a
 * probe that times out.
 */
module Scenarios {
  import opened Wrappers
  import opened LinkExtraction
  import opened Modifications
  import opened CleanupBrokenLinks

  const DeadUrl: string := "https://dead.example/x"
  const Edit: string := "old " + DeadUrl + " new"

  /** A revision whose `raw` field went through one edit mentioning `DeadUrl`. */
  function EditedRevision(): Revision {
    Revision(7, Hash([("raw", List([Str(Edit)]))]), Some(42), 0)
  }

  /** The text of the edit yields exactly the one link it contains. */
  lemma EditLinks()
    ensures ExtractLinks(Some(Edit)) == [DeadUrl]
  {
    var s := Edit;
    assert |s| == 30;
    assert s[4] == 'h' && s[5] == 't' && s[6] == 't' && s[7] == 'p' && s[8] == 's';
    assert s[9] == ':' && s[10] == '/' && s[11] == '/';
    assert s[4..12] == Https;
    assert IsMaximal(s, 26);
    assert AllowedRun(s, 12, 26);
    NoMatchWithoutH(s, 0, 4);
    NoMatchWithoutH(s, 26, 30);
    assert IsScan(s, 26, []);
    assert IsScan(s, 0, [Span(4, 26)]);
    IsScanUnique(s, 0, [Span(4, 26)]);
    assert s[4..26] == DeadUrl by {
      assert s == "old " + DeadUrl + " new";
    }
  }

  /** There is no word boundary: a link glued to the word before it is still found, from its scheme on. */
  lemma GluedLinkFound()
    ensures ExtractLinks(Some("xhttp://a")) == ["http://a"]
  {
    var s := "xhttp://a";
    assert s[1..8] == Http;
    NoMatchWithoutH(s, 0, 1);
    assert AllowedRun(s, 8, 9);
    assert IsMaximal(s, 9);
    MaximalMatchIsMatchAt(s, 1, 9);
    assert IsScan(s, 9, []);
    assert IsScan(s, 0, [Span(1, 9)]);
    IsScanUnique(s, 0, [Span(1, 9)]);
    assert s[1..9] == "http://a";
  }

  lemma EditedRevisionLinks(env: Env)
    ensures RevisionLinks(EditedRevision(), env) == Some([DeadUrl])
  {
    EditLinks();
    var leaf := [Str(Edit)];
    assert [List(leaf)][1..] == [] && leaf[1..] == [];
    assert Flatten(leaf) == FlattenValue(Str(Edit)) + Flatten([]) == leaf;
    assert Flatten([List(leaf)]) == FlattenValue(List(leaf)) + Flatten([]) == leaf;
    var m := EditedRevision().modifications;
    assert ParseModifications(m, env.yaml) == m;
    assert m.entries[0].1 == List(leaf);
    var vals := Values(m).value;
    assert |vals| == 1 && vals[0] == List(leaf);
    assert vals == [List(leaf)];
    assert Join(leaf) == Edit;
    assert TextContent(m) == Some(Edit);
  }

  /** The link answers 404: the revision is removed and topic 42 is reindexed. */
  lemma DeadLinkRemoved(env: Env)
    requires env.probe(DeadUrl) == Responded(404) && !env.destroyRaises(7)
    ensures Decide(EditedRevision(), env) == Removed(42)
  {
    EditedRevisionLinks(env);
  }

  /** The link answers 200: the revision is kept and nothing is enqueued. */
  lemma LiveLinkKept(env: Env)
    requires env.probe(DeadUrl) == Responded(200)
    ensures Decide(EditedRevision(), env) == Healthy
  {
    EditedRevisionLinks(env);
  }

  /** The probe times out: it reads as 500, so the revision is removed as for a dead link. */
  lemma TimeoutRemoved(env: Env)
    requires env.probe(DeadUrl) == TransportError && !env.destroyRaises(7)
    ensures Decide(EditedRevision(), env) == Removed(42)
  {
    EditedRevisionLinks(env);
  }
}
