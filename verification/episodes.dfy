/** Episode discovery (`listRCCEpisodesFromURL`): fetch a show page and keep
    the `href` of every `.medianet-content` element, in document order,
    skipping elements whose `href` is missing or empty. */
module Episodes {
  import opened Wrappers
  import opened Html
  import opened Web

  const MedianetContent := "medianet-content"
  const Href := "href"

  /** The non-empty `href` values of `sel`, in order. */
  function Hrefs(sel: seq<Node>): (links: seq<string>)
    ensures |links| <= |sel|
    ensures forall l | l in links :: l != ""
    ensures forall n | n in sel && Attr(n, Href) != "" :: Attr(n, Href) in links
    ensures forall l | l in links :: exists n | n in sel :: Attr(n, Href) == l
  {
    if |sel| == 0 then []
    else
      var rest := Hrefs(sel[1..]);
      assert forall n | n in sel && n != sel[0] :: n in sel[1..];
      var link := Attr(sel[0], Href);
      if |link| > 0 then [link] + rest else rest
  }

  lemma {:induction false} HrefsConcat(a: seq<Node>, b: seq<Node>)
    ensures Hrefs(a + b) == Hrefs(a) + Hrefs(b)
    decreases |a|
  {
    if |a| == 0 {
      assert a + b == b;
    } else {
      assert (a + b)[1..] == a[1..] + b;
      HrefsConcat(a[1..], b);
    }
  }

  /** The episode links of a show page: every link is the non-empty `href`
      of a marker element, and every marker element's non-empty `href` is a
      link. Order and multiplicity: `ExtractLinksEnumerates`. */
  function ExtractLinks(doc: Document): (links: seq<string>)
    ensures |links| <= |doc|
    ensures forall l | l in links ::
              l != "" && exists n | n in doc :: MedianetContent in n.classes && Attr(n, Href) == l
    ensures forall n | n in doc && MedianetContent in n.classes && Attr(n, Href) != "" ::
              Attr(n, Href) in links
  {
    Hrefs(Find(doc, MedianetContent))
  }

  /** Position `i` of `doc` is an episode link: a marker element with a
      non-empty `href`. */
  ghost predicate IsLink(doc: Document, i: int) {
    0 <= i < |doc| && MedianetContent in doc[i].classes && Attr(doc[i], Href) != ""
  }

  /** `idx` lists, in increasing order, exactly the link positions of `doc`,
      and `links` holds their `href` values position by position. */
  ghost predicate Enumerates(doc: Document, links: seq<string>, idx: seq<int>) {
    && |idx| == |links|
    && (forall k | 0 <= k < |idx| :: IsLink(doc, idx[k]) && links[k] == Attr(doc[idx[k]], Href))
    && (forall k, l | 0 <= k < l < |idx| :: idx[k] < idx[l])
    && (forall i | IsLink(doc, i) :: i in idx)
  }

  /** The link positions of `doc`, in increasing order. */
  ghost function LinkPositions(doc: Document): seq<int>
  {
    if |doc| == 0 then []
    else
      var last := |doc| - 1;
      LinkPositions(doc[..last]) + (if IsLink(doc, last) then [last] else [])
  }

  /** A document of one element yields that element's link, if it is one. */
  lemma SingleLink(doc: Document, x: Node)
    requires doc == [x]
    ensures ExtractLinks(doc) == if IsLink(doc, 0) then [Attr(x, Href)] else []
  {
    assert doc[1..] == [];
    var sel := Find(doc, MedianetContent);
    assert sel == if MedianetContent in x.classes then [x] else [];
    if MedianetContent in x.classes {
      assert sel[1..] == [];
    }
  }

  /** Removing the last element removes at most the last link. */
  lemma ExtractLinksSnoc(doc: Document)
    requires |doc| > 0
    ensures ExtractLinks(doc) == ExtractLinks(doc[..|doc| - 1]) +
              (if IsLink(doc, |doc| - 1) then [Attr(doc[|doc| - 1], Href)] else [])
  {
    var last := |doc| - 1;
    var x := doc[last];
    assert doc == doc[..last] + [x];
    ExtractLinksConcat(doc[..last], [x]);
    SingleLink([x], x);
    assert IsLink([x], 0) <==> IsLink(doc, last);
  }

  /** Link positions of a prefix are link positions of the whole. */
  lemma PrefixIsLink(doc: Document, n: int)
    requires 0 <= n <= |doc|
    ensures forall i | 0 <= i < n :: IsLink(doc[..n], i) <==> IsLink(doc, i)
  {
    assert forall i | 0 <= i < n :: doc[..n][i] == doc[i];
  }

  /** Extending a document by one element extends an enumeration of its
      links by that element, if it is a link. */
  lemma EnumeratesSnoc(doc: Document, links: seq<string>, idx: seq<int>)
    requires |doc| > 0
    requires Enumerates(doc[..|doc| - 1], links, idx)
    ensures Enumerates(doc,
              links + (if IsLink(doc, |doc| - 1) then [Attr(doc[|doc| - 1], Href)] else []),
              idx + (if IsLink(doc, |doc| - 1) then [|doc| - 1] else []))
  {
    var last := |doc| - 1;
    var init := doc[..last];
    PrefixIsLink(doc, last);
    var links', idx' := links + (if IsLink(doc, last) then [Attr(doc[last], Href)] else []),
                        idx + (if IsLink(doc, last) then [last] else []);
    assert forall k | 0 <= k < |idx| :: IsLink(init, idx[k]) && 0 <= idx[k] < last;
    forall k | 0 <= k < |idx'|
      ensures IsLink(doc, idx'[k]) && links'[k] == Attr(doc[idx'[k]], Href)
    {
      if k < |idx| {
        assert idx'[k] == idx[k] && links'[k] == links[k];
        assert IsLink(init, idx[k]);
        assert init[idx[k]] == doc[idx[k]];
      }
    }
    forall i | IsLink(doc, i) ensures i in idx' {
      if i < last {
        assert IsLink(init, i);
        assert i in idx;
      }
    }
  }

  /** Discovery keeps exactly the link positions, in document order: the
      result is the subsequence of the marker elements' non-empty `href`s. */
  lemma {:induction false} ExtractLinksEnumerates(doc: Document)
    ensures Enumerates(doc, ExtractLinks(doc), LinkPositions(doc))
    decreases |doc|
  {
    if |doc| > 0 {
      ExtractLinksEnumerates(doc[..|doc| - 1]);
      ExtractLinksSnoc(doc);
      EnumeratesSnoc(doc, ExtractLinks(doc[..|doc| - 1]), LinkPositions(doc[..|doc| - 1]));
    }
  }

  lemma HeadIsMember(s: seq<int>)
    ensures |s| > 0 ==> s[0] in s
  {
  }

  /** Two strictly increasing sequences with the same elements are equal. */
  lemma {:induction false} IncreasingUnique(a: seq<int>, b: seq<int>)
    requires forall k, l | 0 <= k < l < |a| :: a[k] < a[l]
    requires forall k, l | 0 <= k < l < |b| :: b[k] < b[l]
    requires forall x :: x in a <==> x in b
    ensures a == b
    decreases |a| + |b|
  {
    HeadIsMember(a);
    HeadIsMember(b);
    if |a| > 0 && |b| > 0 {
      assert a[0] in b && b[0] in a;
      assert a[0] == b[0];
      forall x ensures x in a[1..] <==> x in b[1..] {
        if x in a[1..] {
          assert x in b && x != b[0];
        }
        if x in b[1..] {
          assert x in a && x != a[0];
        }
      }
      IncreasingUnique(a[1..], b[1..]);
      assert a == [a[0]] + a[1..] && b == [b[0]] + b[1..];
    }
  }

  /** Conversely, any in-order enumeration of the link positions carries the
      same links as discovery: the characterisation is exact. */
  lemma EnumerationIsExtractLinks(doc: Document, links: seq<string>, idx: seq<int>)
    requires Enumerates(doc, links, idx)
    ensures links == ExtractLinks(doc)
  {
    var p := LinkPositions(doc);
    ExtractLinksEnumerates(doc);
    IncreasingUnique(idx, p);
  }

  /** The positions of a document that are episode links, as a set: counting
      it needs no ordering, so `LinkCount` states the number of links
      independently of `LinkPositions` and its order. */
  ghost function LinkSet(doc: Document): set<int> {
    set i | 0 <= i < |doc| && IsLink(doc, i)
  }

  lemma LinkSetSnoc(doc: Document)
    requires |doc| > 0
    ensures LinkSet(doc) == LinkSet(doc[..|doc| - 1]) + (if IsLink(doc, |doc| - 1) then {|doc| - 1} else {})
    ensures |doc| - 1 !in LinkSet(doc[..|doc| - 1])
  {
    var last := |doc| - 1;
    var init := doc[..last];
    PrefixIsLink(doc, last);
    var extra := if IsLink(doc, last) then {last} else {};
    forall i ensures i in LinkSet(doc) <==> i in LinkSet(init) + extra {
      if 0 <= i < last {
        assert IsLink(init, i) <==> IsLink(doc, i);
      }
    }
  }

  /** Discovery returns one link per marker element with a non-empty `href`. */
  lemma {:induction false} LinkCount(doc: Document)
    ensures |ExtractLinks(doc)| == |LinkSet(doc)|
    decreases |doc|
  {
    if |doc| == 0 {
      assert LinkSet(doc) == {};
    } else {
      var last := |doc| - 1;
      var init := doc[..last];
      LinkCount(init);
      ExtractLinksSnoc(doc);
      LinkSetSnoc(doc);
    }
  }

  /** A page with no marker element yields the empty list, not an error. */
  lemma NoMarkersNoLinks(doc: Document)
    requires forall i | 0 <= i < |doc| :: MedianetContent !in doc[i].classes
    ensures ExtractLinks(doc) == []
  {
  }

  /** Links of later content follow those of earlier content. */
  lemma ExtractLinksConcat(a: Document, b: Document)
    ensures ExtractLinks(a + b) == ExtractLinks(a) + ExtractLinks(b)
  {
    FindConcat(a, b, MedianetContent);
    HrefsConcat(Find(a, MedianetContent), Find(b, MedianetContent));
  }

  /** One more element appends its `href`, if non-empty. */
  lemma HrefsSnoc(sel: seq<Node>, i: int)
    requires 0 <= i < |sel|
    ensures Hrefs(sel[..i + 1]) ==
              Hrefs(sel[..i]) + (if Attr(sel[i], Href) != "" then [Attr(sel[i], Href)] else [])
  {
    HrefsConcat(sel[..i], [sel[i]]);
    assert sel[..i + 1] == sel[..i] + [sel[i]];
    assert [sel[i]][1..] == [];
  }

  /** The `Each` loop of the source: visit the selected elements in order
      and append each non-empty `href`. */
  method CollectHrefs(sel: seq<Node>) returns (links: seq<string>)
    ensures links == Hrefs(sel)
  {
    links := [];
    var i := 0;
    while i < |sel|
      invariant 0 <= i <= |sel|
      invariant links == Hrefs(sel[..i])
    {
      var link := Attr(sel[i], Href);
      HrefsSnoc(sel, i);
      if |link| > 0 {
        links := links + [link];
      }
      i := i + 1;
    }
    assert sel[..|sel|] == sel;
  }

  /** Discovery as the source runs it: select the marker elements, then
      collect their links with the loop. */
  method CollectLinks(doc: Document) returns (links: seq<string>)
    ensures links == ExtractLinks(doc)
    ensures |links| == |LinkSet(doc)|
  {
    var sel := Find(doc, MedianetContent);
    links := CollectHrefs(sel);
    LinkCount(doc);
  }

  /** `listRCCEpisodesFromURL`: fetch, check the status, parse, extract. */
  function ListEpisodes(env: Env, url: string): (r: Result<seq<string>, Error>)
    ensures env.web(url).None? ==> r == Failure(NetworkError)
    ensures env.web(url).Some? && env.web(url).value.status != 200 ==>
              r == Failure(StatusError(env.web(url).value.status))
    ensures env.web(url).Some? && env.web(url).value.status == 200 ==>
              var page := env.parseHtml(env.web(url).value.body);
              && (page.None? ==> r == Failure(ParseError))
              && (page.Some? ==> r == Success(ExtractLinks(page.value)))
    ensures r.Success? ==> forall l | l in r.value :: l != ""
  {
    var body :- Get(env, url);
    match env.parseHtml(body)
    case None => Failure(ParseError)
    case Some(doc) => Success(ExtractLinks(doc))
  }

  /** A status other than 200 is an error carrying that status, whatever the
      parser would have made of the body: nothing is parsed. */
  lemma ListEpisodesStatusError(env: Env, other: Env, url: string, res: Response)
    requires env.web(url) == Some(res) && res.status != 200
    ensures ListEpisodes(env, url) == Failure(StatusError(res.status))
    ensures ListEpisodes(other.(web := env.web), url) == ListEpisodes(env, url)
  {
  }

  /** On a 200 response the result is the page's links; a page without
      markers gives an empty list rather than an error. */
  lemma ListEpisodesSuccess(env: Env, url: string, doc: Document)
    requires env.web(url).Some? && env.web(url).value.status == 200
    requires env.parseHtml(env.web(url).value.body) == Some(doc)
    ensures ListEpisodes(env, url) == Success(ExtractLinks(doc))
    ensures (forall i | 0 <= i < |doc| :: MedianetContent !in doc[i].classes) ==>
              ListEpisodes(env, url) == Success([])
  {
  }
}
