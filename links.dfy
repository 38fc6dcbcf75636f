/**
 * The link extractor of the broken-link cleanup job: the expression
 * `text.scan(%r{https?://[^\s"'<>\]]+})`, written out as a scanner over
 * characters. Ruby's `String#scan` finds the leftmost match, takes it whole
 * (the character class is greedy) and resumes right after it, so matches
 * never overlap; there is no word boundary and nothing is deduplicated.
 */
module LinkExtraction {
  import opened Wrappers

  const Http: string := "http://"
  const Https: string := "https://"

  /** Ruby's `\s`: space, tab, line feed, vertical tab, form feed, carriage return. */
  predicate IsSpace(c: char) {
    c == ' ' || c == '\t' || c == '\n' || c == '\U{B}' || c == '\U{C}' || c == '\r'
  }

  /** The characters the class `[^\s"'<>\]]` rejects. */
  predicate Excluded(c: char) {
    IsSpace(c) || c == '"' || c == '\'' || c == '<' || c == '>' || c == ']'
  }

  /** `w` occurs in `s` at position `p`. */
  predicate HasAt(s: string, p: nat, w: string) {
    p + |w| <= |s| && s[p..p + |w|] == w
  }

  /** `s[a..e]` is a non-empty run of characters the class accepts. */
  predicate AllowedRun(s: string, a: nat, e: nat) {
    a < e <= |s| && forall j :: a <= j < e ==> !Excluded(s[j])
  }

  /** The regular expression matches exactly `s[p..e]`. */
  predicate MatchesAt(s: string, p: nat, e: nat) {
    (HasAt(s, p, Http) && AllowedRun(s, p + |Http|, e)) ||
    (HasAt(s, p, Https) && AllowedRun(s, p + |Https|, e))
  }

  /** A match ending at `e` cannot be extended: the text ends there or its next character is rejected. */
  predicate IsMaximal(s: string, e: nat) {
    e == |s| || (e < |s| && Excluded(s[e]))
  }

  /** No match of the expression starts anywhere in `s[a..b]`. */
  ghost predicate NoMatchIn(s: string, a: nat, b: nat) {
    forall p, e :: a <= p < b ==> !MatchesAt(s, p, e)
  }

  /** A link as the job sees it: a scheme, at least one more character, and no rejected character. */
  predicate IsLink(l: string) {
    ((Http <= l && |l| > |Http|) || (Https <= l && |l| > |Https|)) &&
    forall j :: 0 <= j < |l| ==> !Excluded(l[j])
  }

  /** "http://" and "https://" cannot both occur at one position (the fifth character differs). */
  lemma SchemesExclusive(s: string, p: nat)
    ensures !(HasAt(s, p, Http) && HasAt(s, p, Https))
  {
    if HasAt(s, p, Http) {
      assert s[p + 4] == s[p..p + |Http|][4] == ':';
      assert p + |Https| <= |s| ==> s[p..p + |Https|][4] == s[p + 4];
    }
  }

  /** The end of the longest run of accepted characters starting at `a`. */
  function RunEnd(s: string, a: nat): (e: nat)
    requires a <= |s|
    ensures a <= e <= |s|
    ensures forall j :: a <= j < e ==> !Excluded(s[j])
    ensures IsMaximal(s, e)
    decreases |s| - a
  {
    if a == |s| || Excluded(s[a]) then a else RunEnd(s, a + 1)
  }

  /** The match at position `p`, if any: its end, taken as far as the character class allows. */
  function MatchAt(s: string, p: nat): (m: Option<nat>)
    requires p <= |s|
    ensures m.Some? ==> MatchesAt(s, p, m.value) && IsMaximal(s, m.value)
    ensures m.None? ==> forall e :: !MatchesAt(s, p, e)
  {
    SchemesExclusive(s, p);
    var k := if HasAt(s, p, Https) then |Https| else if HasAt(s, p, Http) then |Http| else 0;
    if k == 0 then None
    else
      var e := RunEnd(s, p + k);
      if e == p + k then None else Some(e)
  }

  /** A maximal match at `p` is the one `MatchAt` finds. */
  lemma MaximalMatchIsMatchAt(s: string, p: nat, e: nat)
    requires p <= |s| && MatchesAt(s, p, e) && IsMaximal(s, e)
    ensures MatchAt(s, p) == Some(e)
  {
    SchemesExclusive(s, p);
  }

  /** Where one match lies in the text: `s[start..end]`. */
  datatype Span = Span(start: nat, end: nat)

  /** The scan of `s` from position `i` on, as `String#scan` performs it. */
  function ScanFrom(s: string, i: nat): (r: seq<Span>)
    requires i <= |s|
    ensures forall k :: 0 <= k < |r| ==>
      i <= r[k].start && MatchesAt(s, r[k].start, r[k].end) && IsMaximal(s, r[k].end)
    ensures forall k :: 0 <= k < |r| - 1 ==> r[k].end <= r[k + 1].start
    decreases |s| - i
  {
    if i == |s| then []
    else match MatchAt(s, i)
      case Some(e) => [Span(i, e)] + ScanFrom(s, e)
      case None => ScanFrom(s, i + 1)
  }

  /**
   * The leftmost, greedy, non-overlapping scan, stated without the scanner:
   * before each match (from where the previous one ended) no match starts,
   * each match is maximal, and after the last one no match starts.
   */
  ghost predicate IsScan(s: string, i: nat, spans: seq<Span>)
    requires i <= |s|
    decreases spans
  {
    if spans == [] then NoMatchIn(s, i, |s|)
    else
      i <= spans[0].start && NoMatchIn(s, i, spans[0].start) &&
      MatchesAt(s, spans[0].start, spans[0].end) && IsMaximal(s, spans[0].end) &&
      IsScan(s, spans[0].end, spans[1..])
  }

  lemma {:induction false} ScanFromIsScan(s: string, i: nat)
    requires i <= |s|
    ensures IsScan(s, i, ScanFrom(s, i))
    decreases |s| - i
  {
    if i < |s| {
      match MatchAt(s, i)
      case Some(e) =>
        ScanFromIsScan(s, e);
        var r := ScanFrom(s, i);
        assert r == [Span(i, e)] + ScanFrom(s, e);
        assert r[0] == Span(i, e) && r[1..] == ScanFrom(s, e);
        assert NoMatchIn(s, i, i);
      case None =>
        ScanFromIsScan(s, i + 1);
        var r := ScanFrom(s, i + 1);
        assert ScanFrom(s, i) == r;
        NoMatchExtend(s, i, if r == [] then |s| else r[0].start);
    }
  }

  /** With no match at `i`, a stretch without a match from `i + 1` on has none from `i` on. */
  lemma NoMatchExtend(s: string, i: nat, b: nat)
    requires forall e :: !MatchesAt(s, i, e)
    requires NoMatchIn(s, i + 1, b)
    ensures NoMatchIn(s, i, b)
  {
  }

  lemma {:induction false} IsScanUnique(s: string, i: nat, spans: seq<Span>)
    requires i <= |s| && IsScan(s, i, spans)
    ensures spans == ScanFrom(s, i)
    decreases |s| - i
  {
    if i < |s| {
      match MatchAt(s, i)
      case Some(e) =>
        assert MatchesAt(s, i, e);
        assert spans != [];
        assert spans[0].start == i;
        MaximalMatchIsMatchAt(s, i, spans[0].end);
        IsScanUnique(s, e, spans[1..]);
      case None =>
        assert spans != [] ==> spans[0].start != i;
        IsScanUnique(s, i + 1, spans);
    }
  }

  /** The scanner computes the leftmost greedy scan, and that scan is unique. */
  lemma ScanCharacterised(s: string, i: nat, spans: seq<Span>)
    requires i <= |s|
    ensures IsScan(s, i, spans) <==> spans == ScanFrom(s, i)
  {
    ScanFromIsScan(s, i);
    if IsScan(s, i, spans) {
      IsScanUnique(s, i, spans);
    }
  }

  /** The text of each span. */
  function Slices(s: string, spans: seq<Span>): (r: seq<string>)
    requires forall k :: 0 <= k < |spans| ==> spans[k].start <= spans[k].end <= |s|
  {
    seq(|spans|, k requires 0 <= k < |spans| => s[spans[k].start..spans[k].end])
  }

  /** A maximal match's text is a link. */
  lemma MatchIsLink(s: string, p: nat, e: nat)
    requires MatchesAt(s, p, e)
    ensures IsLink(s[p..e])
  {
    var l := s[p..e];
    SchemesExclusive(s, p);
    var k := if HasAt(s, p, Https) then |Https| else |Http|;
    assert l[..k] == s[p..p + k];
    forall j | 0 <= j < |l| ensures !Excluded(l[j]) {
      if j < k {
        assert l[j] == s[p..p + k][j];
      } else {
        assert l[j] == s[p + j];
      }
    }
  }

  /** `extract_links`: no text (`nil`) gives no links; otherwise the texts of the scan's matches, in order. */
  function ExtractLinks(text: Option<string>): (r: seq<string>)
    ensures text.None? ==> r == []
    ensures forall k :: 0 <= k < |r| ==> IsLink(r[k])
  {
    match text
    case None => []
    case Some(s) =>
      var spans := ScanFrom(s, 0);
      assert forall k :: 0 <= k < |spans| ==> IsLink(s[spans[k].start..spans[k].end]) by {
        forall k | 0 <= k < |spans| ensures IsLink(s[spans[k].start..spans[k].end]) {
          MatchIsLink(s, spans[k].start, spans[k].end);
        }
      }
      Slices(s, spans)
  }

  /** A text yields no link exactly when no match of the expression starts anywhere in it. */
  lemma NoLinksIff(s: string)
    ensures ExtractLinks(Some(s)) == [] <==> NoMatchIn(s, 0, |s|)
  {
    ScanCharacterised(s, 0, []);
    if ScanFrom(s, 0) != [] {
      assert |ExtractLinks(Some(s))| == |ScanFrom(s, 0)|;
    }
  }

  /** Without "http://" or "https://" anywhere in it, or as `nil`, a text yields no link. */
  lemma NoSchemeNoLinks(s: string)
    requires forall p :: 0 <= p < |s| ==> !HasAt(s, p, Http) && !HasAt(s, p, Https)
    ensures ExtractLinks(Some(s)) == [] && ExtractLinks(None) == []
  {
    NoLinksIff(s);
  }

  /** Whether the expression matches exactly `s[p..e]` depends on those characters alone. */
  lemma MatchIsLocal(s: string, p: nat, e: nat, t: string, q: nat)
    requires p <= e <= |s| && q + (e - p) <= |t|
    requires s[p..e] == t[q..q + (e - p)]
    ensures MatchesAt(s, p, e) <==> MatchesAt(t, q, q + (e - p))
  {
    forall j | p <= j < e ensures s[j] == t[q + (j - p)] {
      assert s[j] == s[p..e][j - p];
    }
    forall j | q <= j < q + (e - p) ensures t[j] == s[p + (j - q)] {
      assert t[j] == t[q..q + (e - p)][j - q];
    }
    if |Http| <= e - p {
      assert s[p..p + |Http|] == s[p..e][..|Http|];
      assert t[q..q + |Http|] == t[q..q + (e - p)][..|Http|];
    }
    if |Https| <= e - p {
      assert s[p..p + |Https|] == s[p..e][..|Https|];
      assert t[q..q + |Https|] == t[q..q + (e - p)][..|Https|];
    }
  }

  /** A match inside a piece of a text is a match of the text. */
  lemma MatchInside(s: string, r: string, o: nat, q: nat, f: nat)
    requires o + |r| <= |s| && s[o..o + |r|] == r
    requires MatchesAt(r, q, f)
    ensures MatchesAt(s, o + q, o + f)
  {
    assert q < f <= |r|;
    var piece, direct := s[o..o + |r|][q..f], s[o + q..o + f];
    forall i | 0 <= i < |piece| ensures piece[i] == direct[i] {
      assert piece[i] == s[o..o + |r|][q + i] == s[o + q + i];
    }
    assert piece == direct;
    MatchIsLocal(r, q, f, s, o + q);
  }

  /** A match contains no space: neither scheme has one and the class rejects it. */
  lemma SpaceBlocksMatch(s: string, p: nat, e: nat, j: nat)
    requires p <= j < e <= |s| && s[j] == ' '
    ensures !MatchesAt(s, p, e)
  {
    assert p + |Http| <= |s| && j < p + |Http| ==> s[p..p + |Http|][j - p] == s[j];
    assert p + |Https| <= |s| && j < p + |Https| ==> s[p..p + |Https|][j - p] == s[j];
  }

  /** No match starts where the text has no 'h'. */
  lemma NoMatchWithoutH(s: string, a: nat, b: nat)
    requires b <= |s|
    requires forall p :: a <= p < b ==> s[p] != 'h'
    ensures NoMatchIn(s, a, b)
  {
    forall p, e | a <= p < b ensures !MatchesAt(s, p, e) {
      assert p + |Http| <= |s| ==> s[p..p + |Http|][0] == s[p];
      assert p + |Https| <= |s| ==> s[p..p + |Https|][0] == s[p];
    }
  }
}
