/**
 * The `modifications` field of a post revision and how the cleanup job turns it
 * into one text: `parse_modifications`, then `.values.flatten.join(" ")`.
 * YAML itself is an oracle: a partial function from a string to a document.
 */
module Modifications {
  import opened Wrappers

  /** A value inside a modifications hash. */
  datatype Value =
    | Nil
    | Bool(b: bool)
    | Str(s: string)
      /** Any other non-blank object (a number, a symbol, a time, a nested hash): only its `to_s` text matters here. */
    | Scalar(rendered: string)
    | List(items: seq<Value>)

  /** The field, stored or decoded: a hash in insertion order, or some other value. */
  datatype Doc = Hash(entries: seq<(string, Value)>) | Plain(v: Value)

  /** The characters of `[[:space:]]`, which Rails' `String#blank?` accepts: Unicode White_Space. */
  predicate IsBlankChar(c: char) {
    ('\t' <= c <= '\r') || c == ' ' || c == '\U{85}' || c == '\U{A0}' || c == '\U{1680}' ||
    ('\U{2000}' <= c <= '\U{200A}') || c == '\U{2028}' || c == '\U{2029}' || c == '\U{202F}' ||
    c == '\U{205F}' || c == '\U{3000}'
  }

  /** Rails' `blank?`: nil, false, an empty hash or array, or a string of white space only. */
  predicate IsBlank(d: Doc) {
    match d
    case Hash(entries) => entries == []
    case Plain(v) =>
      v.Nil? || v == Bool(false) || v == List([]) ||
      (v.Str? && forall j :: 0 <= j < |v.s| ==> IsBlankChar(v.s[j]))
  }

  predicate IsString(d: Doc) {
    d.Plain? && d.v.Str?
  }

  /**
   * `parse_modifications`: blank gives `{}`; a string goes through YAML, and a
   * string YAML rejects gives `{}` instead of an exception; anything else is
   * returned as it is.
   */
  function ParseModifications(m: Doc, yaml: string -> Option<Doc>): (r: Doc)
    ensures IsBlank(m) ==> r == Hash([])
    ensures !IsBlank(m) && IsString(m) && yaml(m.v.s).None? ==> r == Hash([])
    ensures !IsBlank(m) && IsString(m) && yaml(m.v.s).Some? ==> r == yaml(m.v.s).value
    ensures !IsBlank(m) && !IsString(m) ==> r == m
  {
    if IsBlank(m) then Hash([])
    else if IsString(m) then
      match yaml(m.v.s)
      case Some(d) => d
      case None => Hash([])
    else m
  }

  /** `.values`: the values of a hash in order; on anything else Ruby raises `NoMethodError` (None). */
  function Values(d: Doc): (r: Option<seq<Value>>)
    ensures r.Some? <==> d.Hash?
    ensures r.Some? ==> |r.value| == |d.entries|
    ensures r.Some? ==> forall k :: 0 <= k < |r.value| ==> r.value[k] == d.entries[k].1
  {
    match d
    case Hash(entries) => Some(seq(|entries|, k requires 0 <= k < |entries| => entries[k].1))
    case Plain(_) => None
  }

  /** `[v].flatten`: the non-array elements of `v`, nested arrays opened in order. */
  function FlattenValue(v: Value): (r: seq<Value>)
    ensures forall k :: 0 <= k < |r| ==> !r[k].List?
    decreases v
  {
    match v
    case List(items) => Flatten(items)
    case _ => [v]
  }

  /** `Array#flatten`. */
  function Flatten(vs: seq<Value>): (r: seq<Value>)
    ensures forall k :: 0 <= k < |r| ==> !r[k].List?
    decreases vs
  {
    if vs == [] then [] else FlattenValue(vs[0]) + Flatten(vs[1..])
  }

  /** `x` is a non-array value nested at some depth of `v`, or `v` itself when it is no array. */
  ghost predicate LeafOf(x: Value, v: Value)
    decreases v
  {
    if v.List? then exists i :: 0 <= i < |v.items| && LeafOf(x, v.items[i]) else x == v
  }

  /** `x` is a non-array value nested at some depth of one of `vs`. */
  ghost predicate LeafOfAny(x: Value, vs: seq<Value>) {
    exists k :: 0 <= k < |vs| && LeafOf(x, vs[k])
  }

  /** Flattening one value keeps exactly its leaves, at every depth. */
  lemma {:induction false} FlattenValueLeaves(v: Value, x: Value)
    ensures x in FlattenValue(v) <==> LeafOf(x, v)
    decreases v
  {
    if v.List? {
      FlattenLeaves(v.items, x);
    }
  }

  /** `flatten` keeps exactly the leaves of its values, at every depth: none is lost and none is added. */
  lemma {:induction false} FlattenLeaves(vs: seq<Value>, x: Value)
    ensures x in Flatten(vs) <==> LeafOfAny(x, vs)
    decreases vs
  {
    if vs != [] {
      FlattenValueLeaves(vs[0], x);
      FlattenLeaves(vs[1..], x);
      assert Flatten(vs) == FlattenValue(vs[0]) + Flatten(vs[1..]);
      if LeafOfAny(x, vs[1..]) {
        var k :| 0 <= k < |vs[1..]| && LeafOf(x, vs[1..][k]);
        assert LeafOf(x, vs[k + 1]);
      }
      if LeafOfAny(x, vs) {
        var k :| 0 <= k < |vs| && LeafOf(x, vs[k]);
        assert k == 0 || LeafOf(x, vs[1..][k - 1]);
      }
    }
  }

  /** Flattening distributes over concatenation: the leaves keep the order of the values they come from. */
  lemma {:induction false} FlattenAppend(a: seq<Value>, b: seq<Value>)
    ensures Flatten(a + b) == Flatten(a) + Flatten(b)
    decreases |a|
  {
    if a != [] {
      assert (a + b)[0] == a[0];
      assert (a + b)[1..] == a[1..] + b;
      FlattenAppend(a[1..], b);
      assert Flatten(a + b) == FlattenValue(a[0]) + Flatten(a[1..] + b);
    } else {
      assert a + b == b;
    }
  }

  /** Values that hold no array are their own flattening. */
  lemma {:induction false} FlattenFlat(vs: seq<Value>)
    requires forall k :: 0 <= k < |vs| ==> !vs[k].List?
    ensures Flatten(vs) == vs
    decreases |vs|
  {
    if vs != [] {
      FlattenFlat(vs[1..]);
    }
  }

  /** `to_s` of a non-array element, as `Array#join` takes it (nil joins as the empty string). */
  function Render(v: Value): string
    requires !v.List?
  {
    match v
    case Nil => ""
    case Bool(b) => if b then "true" else "false"
    case Str(s) => s
    case Scalar(r) => r
  }

  /** The part of `a + " " + b` before the separator is `a`'s. */
  lemma BeforeSeparator(a: string, b: string, o: nat, n: nat)
    requires o + n <= |a|
    ensures (a + " " + b)[o..o + n] == a[o..o + n]
  {
  }

  /** The part of `a + " " + b` after the separator is `b`'s. */
  lemma AfterSeparator(a: string, b: string, o: nat, n: nat)
    requires o + n <= |b|
    ensures (a + " " + b)[|a| + 1 + o..|a| + 1 + o + n] == b[o..o + n]
  {
  }

  /** `join(" ")` of non-array elements. */
  function Join(vs: seq<Value>): string
    requires forall k :: 0 <= k < |vs| ==> !vs[k].List?
    decreases |vs|
  {
    if vs == [] then ""
    else if |vs| == 1 then Render(vs[0])
    else Render(vs[0]) + " " + Join(vs[1..])
  }

  /** The text the job scans: `modifications.values.flatten.join(" ")`, or None where `.values` raises. */
  function TextContent(m: Doc): Option<string> {
    match Values(m)
    case Some(vals) => Some(Join(Flatten(vals)))
    case None => None
  }

  /** The text exists exactly for a hash, and an empty hash gives the empty text. */
  lemma TextContentShape(m: Doc)
    ensures TextContent(m).Some? <==> m.Hash?
    ensures m == Hash([]) ==> TextContent(m) == Some("")
  {
  }
}
