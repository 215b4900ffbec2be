/**
 * The references of an ontology record as the exporter reads them: a generic
 * reference `target [annotation]` and a typed relationship `relId target`,
 * each turned into a `Link` (the target id and the property the resulting
 * edge carries), and the request (`Req`) a link stands for.
 */
module OboReferences {
  import opened Wrappers
  import opened OboText
  import opened RelationCaching

  /** A parsed reference: the id of the target and the edge property's key and value. */
  datatype Link = Link(target: string, key: Option<string>, value: Option<string>)

  /**
   * A generic reference: when it contains a space it is split into two tokens,
   * the target id and the annotation (which fails when the split yields fewer
   * than two tokens); without a space the whole text is the target id and the
   * annotation is absent.
   */
  function GenericLink(t: string): (r: Option<Link>)
    ensures ' ' !in t ==> r == Some(Link(t, Some("annotation"), None))
    ensures ' ' in t ==> (r.Some? <==> ' ' in Collapse(t))
    ensures ' ' in t && r.Some? ==> IsToken(r.value.target) && r.value.key == Some("annotation") && r.value.value.Some?
  {
    if ' ' in t then
      var parts := Split(t, 2);
      TwoWords(t, 2);
      SplitTokens(t, 2);
      if |parts| < 2 then None
      else Some(Link(parts[0], Some("annotation"), Some(parts[1])))
    else Some(Link(t, Some("annotation"), None))
  }

  /** A typed relationship `relId target`: the second token is the target, the first the `rel_id` property. */
  function TypedLink(r: string): (l: Option<Link>)
    ensures l.Some? <==> ' ' in Collapse(r)
    ensures l.Some? ==> l.value.key == Some("rel_id") && l.value.value.Some? && IsToken(l.value.value.value)
    ensures l.Some? ==> l.value.target != [] && l.value.target[0] != ' '
  {
    var parts := Split(r, 2);
    TwoWords(r, 2);
    SplitTokens(r, 2);
    if |parts| < 2 then None
    else Some(Link(parts[1], Some("rel_id"), Some(parts[0])))
  }

  function ParseLink(t: string, typed: bool): Option<Link> {
    if typed then TypedLink(t) else GenericLink(t)
  }

  /** The texts of the present elements of a reference array, in order. */
  function PresentTexts(refs: seq<Option<string>>): (r: seq<string>)
    ensures |r| <= |refs|
  {
    if refs == [] then []
    else
      var last := refs[|refs| - 1];
      PresentTexts(refs[..|refs| - 1]) + (if last.Some? then [last.value] else [])
  }

  /**
   * The links of a reference array, in order: absent elements are skipped and
   * the whole array fails as soon as one present element does not parse.
   */
  function Links(refs: seq<Option<string>>, typed: bool): (r: Option<seq<Link>>)
    ensures r.Some? <==> forall i :: 0 <= i < |refs| && refs[i].Some? ==> ParseLink(refs[i].value, typed).Some?
    ensures r.Some? ==> |r.value| == |PresentTexts(refs)|
    ensures r.Some? ==> forall j :: 0 <= j < |r.value| ==> ParseLink(PresentTexts(refs)[j], typed) == Some(r.value[j])
  {
    if refs == [] then Some([])
    else
      var init := Links(refs[..|refs| - 1], typed);
      var last := refs[|refs| - 1];
      assert forall i :: 0 <= i < |refs| - 1 ==> refs[..|refs| - 1][i] == refs[i];
      if init.None? then None
      else if last.None? then init
      else
        match ParseLink(last.value, typed)
        case None => None
        case Some(l) => Some(init.value + [l])
  }

  /** A reference array that is itself absent yields no links. */
  function ArrayLinks(refs: Option<seq<Option<string>>>, typed: bool): Option<seq<Link>> {
    if refs.None? then Some([]) else Links(refs.value, typed)
  }

  /** Extending the array by one element extends its links by that element's link, if present. */
  lemma LinksSnoc(refs: seq<Option<string>>, x: Option<string>, typed: bool)
    ensures Links(refs + [x], typed) ==
      if Links(refs, typed).None? then None
      else if x.None? then Links(refs, typed)
      else if ParseLink(x.value, typed).None? then None
      else Some(Links(refs, typed).value + [ParseLink(x.value, typed).value])
  {
    assert (refs + [x])[..|refs + [x]| - 1] == refs;
  }

  /** The request a link made from node `source` under `relation` stands for. */
  function LinkReq(source: nat, relation: string, l: Link): Req {
    Req(source, l.target, relation, PropOf(l.key, l.value))
  }

  function LinkReqs(source: nat, relation: string, ls: seq<Link>): (r: seq<Req>)
    ensures |r| == |ls| && forall i :: 0 <= i < |ls| ==> r[i] == LinkReq(source, relation, ls[i])
  {
    seq(|ls|, i requires 0 <= i < |ls| => LinkReq(source, relation, ls[i]))
  }

  lemma LinkReqsSnoc(source: nat, relation: string, ls: seq<Link>, l: Link)
    ensures LinkReqs(source, relation, ls + [l]) == LinkReqs(source, relation, ls) + [LinkReq(source, relation, l)]
  {
  }

  /** Caching a link keeps its request: the cached entry stands for the same request as the link. */
  lemma CachedLinkReq(source: nat, relation: string, l: Link)
    ensures CachedReq(l.target, relation, CacheEntry(source, l.key, l.value)) == LinkReq(source, relation, l)
  {
  }

  /**
   * A generic reference splits at its first space into the target id and the
   * annotation; one without a space is all target id, with no annotation.
   */
  lemma {:induction false} GenericLinkSplit(id: string, annotation: string)
    requires IsToken(id) && annotation != [] && annotation[0] != ' '
    ensures GenericLink(id + " " + annotation) == Some(Link(id, Some("annotation"), Some(annotation)))
  {
    var t := id + " " + annotation;
    assert t[|id|] == ' ';
    assert t == id + [' '] + annotation;
    SplitAfterToken(id, annotation, 2);
    SplitLast(annotation);
  }

  lemma GenericLinkWithoutSpace(t: string)
    requires forall k :: 0 <= k < |t| ==> t[k] != ' '
    ensures GenericLink(t) == Some(Link(t, Some("annotation"), None))
  {
  }

  /** A typed relationship `relId target` yields the target and the `rel_id` property. */
  lemma {:induction false} TypedLinkSplit(relId: string, target: string)
    requires IsToken(relId) && target != [] && target[0] != ' '
    ensures TypedLink(relId + " " + target) == Some(Link(target, Some("rel_id"), Some(relId)))
  {
    assert relId + " " + target == relId + [' '] + target;
    SplitAfterToken(relId, target, 2);
    SplitLast(target);
  }

  /** A typed relationship with a single token has no target and fails. */
  lemma {:induction false} TypedLinkSingleToken(relId: string)
    requires IsToken(relId)
    ensures TypedLink(relId) == None
  {
    SplitAfterToken(relId, [], 2);
  }
}
