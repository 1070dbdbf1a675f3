/** The link and image rewriting of `src/mon.rs`: choosing the best image
    source from `srcset` (`get_highest_quality_src`), recovering an image's
    original from a thumbnail URL (`get_image_thumbnail_origin`), and
    `fix_links`, which removes reference marks and points links and images
    at their dictionary counterparts. */
module MonLinks {
  import opened Wrappers
  import opened Strings
  import opened Maps
  import opened Dom
  import opened Urls
  import Index

  // ---------------------------------------------------------------------------
  // srcset

  /** One comma-separated `srcset` piece as a (descriptor, source) pair: cut
      at the last space, the descriptor trimmed, the source kept as it is;
      a piece without a space gives nothing. */
  function Candidate(piece: string): (c: Option<(string, string)>)
    ensures c.None? <==> ' ' !in piece
  {
    match RSplitOnce(piece, ' ')
    case None => None
    case Some((src, size)) => Some((Trim(size), src))
  }

  /** The source is everything before the last space, the descriptor what
      follows it, trimmed. */
  lemma CandidateShape(src: string, size: string)
    requires ' ' !in size
    ensures Candidate(src + " " + size) == Some((Trim(size), src))
  {
    assert src + " " + size == src + [' '] + size;
    RSplitOnceUnique(src + " " + size, ' ', src, size);
  }

  function Candidates(pieces: seq<string>): (cs: seq<Option<(string, string)>>)
    ensures |cs| == |pieces|
    ensures forall i :: 0 <= i < |pieces| ==> cs[i] == Candidate(pieces[i])
  {
    seq(|pieces|, i requires 0 <= i < |pieces| => Candidate(pieces[i]))
  }

  /** The `srcset` of an image as a map from descriptor to source (none: empty). */
  function SrcSet(img: Node): map<string, string>
  {
    Collect(Candidates(SrcSetPieces(img)))
  }

  /** A descriptor is in the `srcset` map exactly when some piece with a
      space has it after its last space; pieces without a space add nothing. */
  lemma SrcSetKeys(img: Node, d: string)
    ensures d in SrcSet(img) <==>
      exists p :: p in SrcSetPieces(img) && ' ' in p && Candidate(p).value.0 == d
  {
    var ps := SrcSetPieces(img);
    var cs := Candidates(ps);
    CollectKeys(cs, d);
    if d in SrcSet(img) {
      var i :| 0 <= i < |cs| && cs[i].Some? && cs[i].value.0 == d;
      assert ps[i] in ps;
    }
  }

  /** The `,`-separated pieces of the `srcset` attribute (none: one empty piece). */
  function SrcSetPieces(img: Node): seq<string>
  {
    Split(GetOr(GetAttr(img, "srcset"), ""), ',')
  }

  /** The source a descriptor maps to is that of the last piece with that descriptor. */
  lemma SrcSetLastWins(img: Node, i: nat, d: string, src: string)
    requires i < |SrcSetPieces(img)| && Candidate(SrcSetPieces(img)[i]) == Some((d, src))
    requires forall j :: i < j < |SrcSetPieces(img)| && Candidate(SrcSetPieces(img)[j]).Some? ==>
      Candidate(SrcSetPieces(img)[j]).value.0 != d
    ensures d in SrcSet(img) && SrcSet(img)[d] == src
  {
    CandidatesLastWins(SrcSetPieces(img), i, d, src);
  }

  lemma CandidatesLastWins(ps: seq<string>, i: nat, d: string, src: string)
    requires i < |ps| && Candidate(ps[i]) == Some((d, src))
    requires forall j :: i < j < |ps| && Candidate(ps[j]).Some? ==> Candidate(ps[j]).value.0 != d
    ensures d in Collect(Candidates(ps)) && Collect(Candidates(ps))[d] == src
  {
    var cs := Candidates(ps);
    assert cs[i] == Some((d, src));
    CollectLastWins(cs, i);
  }

  /** The candidates with `src` standing in for `1x` when the `srcset` has none. */
  function Sources(img: Node): (m: map<string, string>)
    ensures "1x" in m
  {
    var fromSet := SrcSet(img);
    if "1x" in fromSet then fromSet else fromSet["1x" := GetOr(GetAttr(img, "src"), "")]
  }

  /** The source the image is fetched from: `2x`, else `1.5x`, else `1x`. */
  function BestSource(img: Node): string
  {
    var m := Sources(img);
    if "2x" in m then m["2x"] else if "1.5x" in m then m["1.5x"] else m["1x"]
  }

  /** The order of preference, and `src` (or the empty string) used only
      when the `srcset` offers none of the three. */
  lemma BestSourceChoice(img: Node)
    ensures "2x" in SrcSet(img) ==> BestSource(img) == SrcSet(img)["2x"]
    ensures "2x" !in SrcSet(img) && "1.5x" in SrcSet(img) ==> BestSource(img) == SrcSet(img)["1.5x"]
    ensures "2x" !in SrcSet(img) && "1.5x" !in SrcSet(img) && "1x" in SrcSet(img) ==>
      BestSource(img) == SrcSet(img)["1x"]
    ensures "2x" !in SrcSet(img) && "1.5x" !in SrcSet(img) && "1x" !in SrcSet(img) ==>
      BestSource(img) == GetOr(GetAttr(img, "src"), "")
  {
    var fromSet := SrcSet(img);
    if "1x" !in fromSet {
      assert Sources(img) == fromSet["1x" := GetOr(GetAttr(img, "src"), "")];
    }
  }

  /** `get_highest_quality_src`: the best source resolved against the page;
      none only when that does not resolve.  With `findThumbOrigin`, a
      thumbnail is replaced by its original. */
  function HighestQualitySrc(img: Node, base: Url, join: Joiner, findThumbOrigin: bool): (r: Option<Url>)
    ensures r.None? <==> join(base, BestSource(img)).None?
    ensures r.Some? && !findThumbOrigin ==> r == join(base, BestSource(img))
    ensures r.Some? && findThumbOrigin ==>
      var src := join(base, BestSource(img)).value;
      r.value == (if ThumbOrigin(src).Some? then ThumbOrigin(src).value else src)
  {
    match join(base, BestSource(img))
    case None => None
    case Some(src) =>
      if findThumbOrigin then (match ThumbOrigin(src) case Some(o) => Some(o) case None => Some(src))
      else Some(src)
  }

  // ---------------------------------------------------------------------------
  // Thumbnails

  const ArchivesDomain: string := "archives.bulbagarden.net"

  /** `get_image_thumbnail_origin`: on the archives host, a path
      `/media/upload/thumb/<a>/<b>/<file>/...` names a thumbnail of
      `/media/upload/<a>/<b>/<file>`. */
  function ThumbOrigin(u: Url): Option<Url>
  {
    if DomainOf(u) != Some(ArchivesDomain) || !Contains(Path(u), "/thumb/") then None
    else
      var seg := u.segments;
      if |seg| < 1 || seg[0] != "media" then None
      else if |seg| < 2 || seg[1] != "upload" then None
      else if |seg| < 3 || seg[2] != "thumb" then None
      else if |seg| < 6 then None
      else Some(u.(segments := ["media", "upload", seg[3], seg[4], seg[5]]))
  }

  lemma ThumbPrefix(tail: string)
    requires |tail| > 0 && tail[0] == '/'
    ensures Contains("/thumb" + tail, "/thumb/")
  {
    var s := "/thumb" + tail;
    assert s[0..7] == "/thumb/";
    ContainsAt(s, "/thumb/", 0);
  }

  /** A path whose first segments are `media`, `upload`, `thumb` and one more contains `/thumb/`. */
  lemma ThumbPathContains(seg: seq<string>)
    requires |seg| >= 4 && seg[0] == "media" && seg[1] == "upload" && seg[2] == "thumb"
    ensures Contains(PathOf(seg), "/thumb/")
  {
    var tail := PathOf(seg[3..]);
    var t2 := PathOf(seg[2..]);
    assert t2 == "/thumb" + tail by {
      assert seg[2..][1..] == seg[3..];
    }
    ThumbPrefix(tail);
    assert PathOf(seg[1..]) == "/" + seg[1] + t2 by {
      assert seg[1..][1..] == seg[2..];
    }
    ContainsAppend("/" + seg[1], t2, "/thumb/");
    ContainsAppend("/" + seg[0], PathOf(seg[1..]), "/thumb/");
  }

  /** Exactly the URLs on the archives host whose path starts with `media`,
      `upload`, `thumb` and has at least three more segments have an origin
      (the `/thumb/` test is then implied), and the origin differs from the
      thumbnail in its path only. */
  lemma ThumbOriginIff(u: Url)
    ensures ThumbOrigin(u).Some? <==>
      DomainOf(u) == Some(ArchivesDomain) && |u.segments| >= 6
      && u.segments[0] == "media" && u.segments[1] == "upload" && u.segments[2] == "thumb"
    ensures ThumbOrigin(u).Some? ==>
      var o := ThumbOrigin(u).value;
      o.scheme == u.scheme && o.host == u.host && o.port == u.port
      && o.query == u.query && o.fragment == u.fragment
      && o.segments == ["media", "upload", u.segments[3], u.segments[4], u.segments[5]]
  {
    var seg := u.segments;
    if |seg| >= 6 && seg[0] == "media" && seg[1] == "upload" && seg[2] == "thumb" {
      ThumbPathContains(seg);
    }
  }

  /** The origin's path is `/media/upload/<a>/<b>/<file>`. */
  lemma ThumbOriginPath(u: Url)
    requires ThumbOrigin(u).Some?
    ensures Path(ThumbOrigin(u).value) ==
      "/media/upload/" + u.segments[3] + "/" + u.segments[4] + "/" + u.segments[5]
  {
    ThumbOriginIff(u);
    OriginPath(u.segments[3], u.segments[4], u.segments[5]);
  }

  lemma OriginPath(a: string, b: string, f: string)
    ensures PathOf(["media", "upload", a, b, f]) == "/media/upload/" + a + "/" + b + "/" + f
  {
    var seg := ["media", "upload", a, b, f];
    PathOfThree(a, b, f);
    assert seg[2..] == [a, b, f];
    assert PathOf(seg) == "/media/upload" + PathOf(seg[2..]) by {
      assert seg[1..][1..] == seg[2..];
    }
    assert "/media/upload" + ("/" + a + ("/" + b + "/" + f)) == "/media/upload/" + a + "/" + b + "/" + f;
  }

  lemma PathOfThree(a: string, b: string, f: string)
    ensures PathOf([a, b, f]) == "/" + a + ("/" + b + "/" + f)
  {
    assert PathOf([f]) == "/" + f by {
      assert [f][1..] == [];
    }
    assert PathOf([b, f]) == "/" + b + "/" + f by {
      assert [b, f][1..] == [f];
    }
    assert [a, b, f][1..] == [b, f];
  }

  // ---------------------------------------------------------------------------
  // fix_links

  /** What `fix_links` draws on besides the tree: the page URL, URL joining,
      percent-encoding, the image cache (which yields the cached file name
      of an image URL), and the index of pages. */
  datatype Env = Env(
    base: Url,
    join: Joiner,
    encode: Encoder,
    cache: Url -> Result<string>,
    pages: map<Index.DexId, string>)

  /** The number of the first page in id order whose URL is `url`
      (`pokemon_pages.iter().find`). */
  function PageId(pages: map<Index.DexId, string>, url: string): (r: Option<Index.DexId>)
    ensures r.Some? ==> (r.value in pages && pages[r.value] == url
      && forall j :: j in pages && pages[j] == url ==> r.value.n <= j.n)
    ensures r.None? <==> forall j :: j in pages ==> pages[j] != url
  {
    var ids := Index.SortedIds(pages.Keys);
    Index.SortedIdsSpec(pages.Keys);
    FindPageLeast(ids, pages, url);
    FindPage(ids, pages, url)
  }

  /** Searching the ids in ascending order finds the least id with that page. */
  lemma FindPageLeast(ids: seq<Index.DexId>, pages: map<Index.DexId, string>, url: string)
    requires forall i, j :: 0 <= i < j < |ids| ==> ids[i].n < ids[j].n
    requires forall x :: x in ids <==> x in pages
    ensures forall i :: 0 <= i < |ids| ==> ids[i] in pages
    ensures var r := FindPage(ids, pages, url);
      (r.Some? ==> (r.value in pages && pages[r.value] == url
        && forall j :: j in pages && pages[j] == url ==> r.value.n <= j.n))
      && (r.None? <==> forall j :: j in pages ==> pages[j] != url)
  {
    assert forall i :: 0 <= i < |ids| ==> ids[i] in pages;
    var r := FindPage(ids, pages, url);
    if r.Some? {
      var i :| 0 <= i < |ids| && ids[i] == r.value && pages[r.value] == url
        && forall m :: 0 <= m < i ==> pages[ids[m]] != url;
      forall j | j in pages && pages[j] == url
        ensures r.value.n <= j.n
      {
        assert j in ids;
        var k :| 0 <= k < |ids| && ids[k] == j;
        assert i <= k;
        if i < k {
          assert ids[i].n < ids[k].n;
        }
      }
    } else {
      forall j | j in pages
        ensures pages[j] != url
      {
        assert j in ids;
        var k :| 0 <= k < |ids| && ids[k] == j;
      }
    }
  }

  function FindPage(ids: seq<Index.DexId>, pages: map<Index.DexId, string>, url: string): (r: Option<Index.DexId>)
    requires forall i :: 0 <= i < |ids| ==> ids[i] in pages
    ensures r.None? <==> forall i :: 0 <= i < |ids| ==> pages[ids[i]] != url
    ensures r.Some? ==> exists i :: (0 <= i < |ids| && ids[i] == r.value && pages[r.value] == url
      && forall m :: 0 <= m < i ==> pages[ids[m]] != url)
  {
    if ids == [] then None
    else if pages[ids[0]] == url then Some(ids[0])
    else
      var r := FindPage(ids[1..], pages, url);
      assert forall i :: 1 <= i < |ids| ==> ids[i] == ids[1..][i - 1];
      if r.Some? then
        assert exists i :: (0 <= i < |ids| && ids[i] == r.value && pages[r.value] == url
          && forall m :: 0 <= m < i ==> pages[ids[m]] != url) by {
          var i :| 0 <= i < |ids| - 1 && ids[1..][i] == r.value && pages[r.value] == url
            && forall m :: 0 <= m < i ==> pages[ids[1..][m]] != url;
          assert ids[i + 1] == r.value;
          forall m | 0 <= m < i + 1
            ensures pages[ids[m]] != url
          {
            if m > 0 {
              assert ids[m] == ids[1..][m - 1];
            }
          }
        }
        r
      else r
  }

  /** `sup.reference`, the footnote marks. */
  const Reference: Selector := TagClass("sup", "reference")

  /** The subtree with every `sup.reference` below the root removed (the
      root itself is kept: detaching it only cuts it from its parent). */
  function RemoveRefs(n: Node): Node
    decreases n
  {
    match n
    case Element(ns, name, attrs, children) => Element(ns, name, attrs, RemoveRefsAll(children))
    case _ => n
  }

  function RemoveRefsAll(ns: seq<Node>): seq<Node>
    decreases ns
  {
    if ns == [] then []
    else (if Matches(ns[0], Reference) then [] else [RemoveRefs(ns[0])]) + RemoveRefsAll(ns[1..])
  }

  /** No reference mark is left anywhere below the root. */
  lemma {:induction false} RemoveRefsComplete(n: Node)
    ensures SelectAll(ChildrenOf(RemoveRefs(n)), Reference) == []
    decreases n
  {
    if n.Element? {
      RemoveRefsAllComplete(n.children);
    }
  }

  lemma {:induction false} RemoveRefsAllComplete(ns: seq<Node>)
    ensures SelectAll(RemoveRefsAll(ns), Reference) == []
    decreases ns
  {
    if ns != [] {
      RemoveRefsAllComplete(ns[1..]);
      var rest := RemoveRefsAll(ns[1..]);
      if !Matches(ns[0], Reference) {
        var m := RemoveRefs(ns[0]);
        RemoveRefsComplete(ns[0]);
        assert !Matches(m, Reference);
        assert Select(m, Reference) == SelectAll(ChildrenOf(m), Reference);
        assert ([m] + rest)[1..] == rest;
      } else {
        assert RemoveRefsAll(ns) == rest;
      }
    }
  }

  /** A subtree without a reference mark below its root is kept as it is. */
  lemma {:induction false} RemoveRefsNone(n: Node)
    requires SelectAll(ChildrenOf(n), Reference) == []
    ensures RemoveRefs(n) == n
    decreases n
  {
    if n.Element? {
      RemoveRefsAllNone(n.children);
    }
  }

  lemma {:induction false} RemoveRefsAllNone(ns: seq<Node>)
    requires SelectAll(ns, Reference) == []
    ensures RemoveRefsAll(ns) == ns
    decreases ns
  {
    if ns != [] {
      assert Select(ns[0], Reference) == [] && SelectAll(ns[1..], Reference) == [];
      RemoveRefsNone(ns[0]);
      RemoveRefsAllNone(ns[1..]);
      assert [ns[0]] + ns[1..] == ns;
    }
  }

  /** Removing the references twice is removing them once. */
  lemma RemoveRefsIdempotent(n: Node)
    ensures RemoveRefs(RemoveRefs(n)) == RemoveRefs(n)
  {
    RemoveRefsComplete(n);
    RemoveRefsNone(RemoveRefs(n));
  }

  /** The siblings are handled one by one and in order: a reference is
      dropped, any other node is kept in its place with the references below
      it removed. */
  lemma {:induction false} RemoveRefsAllAppend(a: seq<Node>, b: seq<Node>)
    ensures RemoveRefsAll(a + b) == RemoveRefsAll(a) + RemoveRefsAll(b)
    ensures |a| == 1 ==> RemoveRefsAll(a) == if Matches(a[0], Reference) then [] else [RemoveRefs(a[0])]
    decreases a
  {
    if a == [] {
      assert a + b == b;
    } else {
      assert (a + b)[0] == a[0] && (a + b)[1..] == a[1..] + b;
      RemoveRefsAllAppend(a[1..], b);
      var head := if Matches(a[0], Reference) then [] else [RemoveRefs(a[0])];
      AppendAssoc(head, RemoveRefsAll(a[1..]), RemoveRefsAll(b));
      if |a| == 1 {
        assert a[1..] == [];
      }
    }
  }

  lemma {:induction false} RemoveRefsHtml(n: Node)
    requires AllHtml(n)
    ensures AllHtml(RemoveRefs(n))
    decreases n
  {
    if n.Element? {
      RemoveRefsAllHtml(n.children);
    }
  }

  lemma {:induction false} RemoveRefsAllHtml(ns: seq<Node>)
    requires forall c :: c in ns ==> AllHtml(c)
    ensures forall c :: c in RemoveRefsAll(ns) ==> AllHtml(c)
    decreases ns
  {
    if ns != [] {
      RemoveRefsAllHtml(ns[1..]);
      if !Matches(ns[0], Reference) {
        RemoveRefsHtml(ns[0]);
      }
    }
  }

  const DictionaryLinkPrefix: string := "x-dictionary:r:pokemon-"

  /** The entry a link points to: for a `/wiki/..._(Pok%C3%A9mon)` link, the
      first entry whose page is the joined URL; otherwise none. */
  function DexLink(href: string, joined: string, pages: map<Index.DexId, string>): (r: Option<Index.DexId>)
    ensures r.Some? ==> (StartsWith(href, "/wiki/") && EndsWith(href, "_(Pok%C3%A9mon)")
      && r.value in pages && pages[r.value] == joined)
    ensures r.None? <==> (!StartsWith(href, "/wiki/") || !EndsWith(href, "_(Pok%C3%A9mon)")
      || forall j :: j in pages ==> pages[j] != joined)
  {
    if StartsWith(href, "/wiki/") && EndsWith(href, "_(Pok%C3%A9mon)") then PageId(pages, joined) else None
  }

  /** The new `href`: a dictionary reference for a link to an entry, otherwise the joined URL. */
  function LinkTarget(href: string, joined: string, pages: map<Index.DexId, string>): string
  {
    match DexLink(href, joined, pages)
    case Some(id) => DictionaryLinkPrefix + Decimal(id.n)
    case None => joined
  }

  /** One `<a>` of the links loop: an `href` that does not resolve is an
      error; otherwise `href` becomes its target, and `title` is dropped
      exactly when the link now points into the dictionary. */
  function FixLink(n: Node, env: Env): (r: Result<Node>)
    ensures r.Ok? ==> r.value.Element? == n.Element?
    ensures r.Ok? && n.Element? ==>
      r.value.ns == n.ns && r.value.name == n.name && r.value.children == n.children
    ensures (!Matches(n, Tag("a")) || !HasAttr(n, "href")) ==> r == Ok(n)
    ensures Matches(n, Tag("a")) && HasAttr(n, "href") ==>
      (r.Err? <==> env.join(env.base, GetAttr(n, "href").value).None?)
    ensures Matches(n, Tag("a")) && HasAttr(n, "href") && r.Ok? ==>
      var href := GetAttr(n, "href").value;
      var joined := Serialize(env.join(env.base, href).value);
      && GetAttr(r.value, "href") == Some(LinkTarget(href, joined, env.pages))
      && (DexLink(href, joined, env.pages).Some? ==> GetAttr(r.value, "title") == None)
      && (DexLink(href, joined, env.pages).None? ==> GetAttr(r.value, "title") == GetAttr(n, "title"))
      && forall other :: other != "href" && other != "title" ==> GetAttr(r.value, other) == GetAttr(n, other)
  {
    if !(Matches(n, Tag("a")) && HasAttr(n, "href")) then Ok(n)
    else
      var href := GetAttr(n, "href").value;
      match env.join(env.base, href)
      case None => Err("error fixing <a href=\"" + href + "\"")
      case Some(url) =>
        var joined := Serialize(url);
        var target := LinkTarget(href, joined, env.pages);
        var attrs := if DexLink(href, joined, env.pages).Some? then RemoveAttr(n.attrs, "title") else n.attrs;
        OtherAttrsKept(n.attrs, "title", "");
        OtherAttrsKept(attrs, "href", target);
        RemoveAttrLookup(n.attrs, "title", "href");
        InsertAttrLookup(attrs, "href", target, "title");
        Ok(n.(attrs := InsertAttr(attrs, "href", target)))
  }

  /** The links loop over the subtree (`select("a")`, the root included), in
      document order; the first link that does not resolve ends it. */
  function FixLinksIn(n: Node, env: Env): (r: Result<Node>)
    decreases n
  {
    match FixLink(n, env)
    case Err(e) => Err(e)
    case Ok(m) =>
      if n.Element? then
        match FixLinksInAll(n.children, env)
        case Err(e) => Err(e)
        case Ok(cs) => Ok(m.(children := cs))
      else Ok(m)
  }

  function FixLinksInAll(ns: seq<Node>, env: Env): (r: Result<seq<Node>>)
    ensures r.Ok? ==> |r.value| == |ns|
    decreases ns
  {
    if ns == [] then Ok([])
    else
      match FixLinksIn(ns[0], env)
      case Err(e) => Err(e)
      case Ok(m) =>
        match FixLinksInAll(ns[1..], env)
        case Err(e) => Err(e)
        case Ok(rest) => Ok([m] + rest)
  }

  /** The image `src` a cached file name becomes. */
  function ImageSrc(id: string, env: Env): string
  {
    "images/" + env.encode(id)
  }

  /** One `<img>` of the images loop. */
  function FixImage(n: Node, env: Env, hq: bool): (r: Result<Node>)
    ensures r.Ok? ==> r.value.Element? == n.Element?
    ensures r.Ok? && n.Element? ==>
      r.value.ns == n.ns && r.value.name == n.name && r.value.children == n.children
    ensures !Matches(n, Tag("img")) ==> r == Ok(n)
    ensures Matches(n, Tag("img")) ==>
      (r.Err? <==> (HighestQualitySrc(n, env.base, env.join, hq).None?
        || env.cache(HighestQualitySrc(n, env.base, env.join, hq).value).Err?))
    ensures Matches(n, Tag("img")) && r.Ok? ==>
      && GetAttr(r.value, "srcset") == None
      && GetAttr(r.value, "src") == Some(ImageSrc(env.cache(HighestQualitySrc(n, env.base, env.join, hq).value).value, env))
      && GetAttr(r.value, "width") == GetAttr(n, "width")
      && (HasAttr(n, "width") ==> GetAttr(r.value, "height") == None)
      && (!HasAttr(n, "width") ==> GetAttr(r.value, "height") == GetAttr(n, "height"))
      && forall other :: other !in {"srcset", "src", "height"} ==> GetAttr(r.value, other) == GetAttr(n, other)
  {
    if !Matches(n, Tag("img")) then Ok(n)
    else
      match HighestQualitySrc(n, env.base, env.join, hq)
      case None => Err("<img> without src")
      case Some(src) =>
        match env.cache(src)
        case Err(e) => Err("error fixing <img src=\"" + Serialize(src) + "\">: " + e)
        case Ok(id) =>
          var a1 := RemoveAttr(n.attrs, "srcset");
          var a2 := InsertAttr(a1, "src", ImageSrc(id, env));
          var a3 := if LookupAttr(a2, "width").Some? then RemoveAttr(a2, "height") else a2;
          OtherAttrsKept(n.attrs, "srcset", "");
          OtherAttrsKept(a1, "src", ImageSrc(id, env));
          OtherAttrsKept(a2, "height", "");
          RemoveAttrLookup(n.attrs, "srcset", "src");
          RemoveAttrLookup(n.attrs, "srcset", "width");
          RemoveAttrLookup(n.attrs, "srcset", "height");
          InsertAttrLookup(a1, "src", ImageSrc(id, env), "srcset");
          InsertAttrLookup(a1, "src", ImageSrc(id, env), "width");
          InsertAttrLookup(a1, "src", ImageSrc(id, env), "height");
          RemoveAttrLookup(a2, "height", "srcset");
          RemoveAttrLookup(a2, "height", "src");
          RemoveAttrLookup(a2, "height", "width");
          Ok(n.(attrs := a3))
  }

  /** The images loop over the subtree, in document order; the first image
      without a source, or that the cache cannot provide, ends it. */
  function FixImagesIn(n: Node, env: Env, hq: bool): (r: Result<Node>)
    decreases n
  {
    match FixImage(n, env, hq)
    case Err(e) => Err(e)
    case Ok(m) =>
      if n.Element? then
        match FixImagesInAll(n.children, env, hq)
        case Err(e) => Err(e)
        case Ok(cs) => Ok(m.(children := cs))
      else Ok(m)
  }

  function FixImagesInAll(ns: seq<Node>, env: Env, hq: bool): (r: Result<seq<Node>>)
    ensures r.Ok? ==> |r.value| == |ns|
    decreases ns
  {
    if ns == [] then Ok([])
    else
      match FixImagesIn(ns[0], env, hq)
      case Err(e) => Err(e)
      case Ok(m) =>
        match FixImagesInAll(ns[1..], env, hq)
        case Err(e) => Err(e)
        case Ok(rest) => Ok([m] + rest)
  }

  /** `fix_links`: references removed, then every link, then every image rewritten. */
  function FixLinks(n: Node, env: Env, hq: bool): Result<Node>
  {
    match FixLinksIn(RemoveRefs(n), env)
    case Err(e) => Err(e)
    case Ok(m) => FixImagesIn(m, env, hq)
  }

  // ---------------------------------------------------------------------------
  // What fix_links guarantees

  /** An image as the dictionary uses it: no `srcset`, and a `src` into the image directory. */
  predicate LocalImage(x: Node)
  {
    GetAttr(x, "srcset") == None && HasAttr(x, "src") && StartsWith(GetAttr(x, "src").value, "images/")
  }

  lemma {:induction false} FixImagesInLocal(n: Node, env: Env, hq: bool)
    requires FixImagesIn(n, env, hq).Ok?
    ensures forall x :: x in Select(FixImagesIn(n, env, hq).value, Tag("img")) ==> LocalImage(x)
    decreases n
  {
    var m := FixImage(n, env, hq).value;
    if n.Element? {
      var cs := FixImagesInAll(n.children, env, hq).value;
      FixImagesInAllLocal(n.children, env, hq);
      var r := m.(children := cs);
      assert FixImagesIn(n, env, hq).value == r;
      assert GetAttr(r, "srcset") == GetAttr(m, "srcset") && GetAttr(r, "src") == GetAttr(m, "src");
      assert Select(r, Tag("img")) == (if Matches(r, Tag("img")) then [r] else []) + SelectAll(cs, Tag("img"));
    } else {
      assert FixImagesIn(n, env, hq).value == n;
    }
  }

  lemma {:induction false} FixImagesInAllLocal(ns: seq<Node>, env: Env, hq: bool)
    requires FixImagesInAll(ns, env, hq).Ok?
    ensures forall x :: x in SelectAll(FixImagesInAll(ns, env, hq).value, Tag("img")) ==> LocalImage(x)
    decreases ns
  {
    if ns != [] {
      FixImagesInLocal(ns[0], env, hq);
      FixImagesInAllLocal(ns[1..], env, hq);
      var m := FixImagesIn(ns[0], env, hq).value;
      var rest := FixImagesInAll(ns[1..], env, hq).value;
      assert ([m] + rest)[0] == m && ([m] + rest)[1..] == rest;
    }
  }

  lemma FixLinkHtml(n: Node, env: Env)
    requires AllHtml(n) && FixLink(n, env).Ok?
    ensures AllHtml(FixLink(n, env).value)
  {
    if n.Element? && Matches(n, Tag("a")) && HasAttr(n, "href") {
      var href := GetAttr(n, "href").value;
      var joined := Serialize(env.join(env.base, href).value);
      var target := LinkTarget(href, joined, env.pages);
      HtmlAttrsUpdate(n.attrs, "title", "");
      var attrs := if DexLink(href, joined, env.pages).Some? then RemoveAttr(n.attrs, "title") else n.attrs;
      HtmlAttrsUpdate(attrs, "href", target);
      assert FixLink(n, env).value == n.(attrs := InsertAttr(attrs, "href", target));
    }
  }

  lemma {:induction false} FixLinksInHtml(n: Node, env: Env)
    requires AllHtml(n) && FixLinksIn(n, env).Ok?
    ensures AllHtml(FixLinksIn(n, env).value)
    decreases n
  {
    FixLinkHtml(n, env);
    if n.Element? {
      FixLinksInAllHtml(n.children, env);
    }
  }

  lemma {:induction false} FixLinksInAllHtml(ns: seq<Node>, env: Env)
    requires (forall c :: c in ns ==> AllHtml(c)) && FixLinksInAll(ns, env).Ok?
    ensures forall c :: c in FixLinksInAll(ns, env).value ==> AllHtml(c)
    decreases ns
  {
    if ns != [] {
      FixLinksInHtml(ns[0], env);
      FixLinksInAllHtml(ns[1..], env);
    }
  }

  lemma FixImageHtml(n: Node, env: Env, hq: bool)
    requires AllHtml(n) && FixImage(n, env, hq).Ok?
    ensures AllHtml(FixImage(n, env, hq).value)
  {
    if n.Element? && Matches(n, Tag("img")) {
      var src := HighestQualitySrc(n, env.base, env.join, hq).value;
      var id := env.cache(src).value;
      HtmlAttrsUpdate(n.attrs, "srcset", "");
      var a1 := RemoveAttr(n.attrs, "srcset");
      HtmlAttrsUpdate(a1, "src", ImageSrc(id, env));
      var a2 := InsertAttr(a1, "src", ImageSrc(id, env));
      HtmlAttrsUpdate(a2, "height", "");
      var a3 := if LookupAttr(a2, "width").Some? then RemoveAttr(a2, "height") else a2;
      assert FixImage(n, env, hq).value == n.(attrs := a3);
    }
  }

  lemma {:induction false} FixImagesInHtml(n: Node, env: Env, hq: bool)
    requires AllHtml(n) && FixImagesIn(n, env, hq).Ok?
    ensures AllHtml(FixImagesIn(n, env, hq).value)
    decreases n
  {
    FixImageHtml(n, env, hq);
    if n.Element? {
      FixImagesInAllHtml(n.children, env, hq);
    }
  }

  lemma {:induction false} FixImagesInAllHtml(ns: seq<Node>, env: Env, hq: bool)
    requires (forall c :: c in ns ==> AllHtml(c)) && FixImagesInAll(ns, env, hq).Ok?
    ensures forall c :: c in FixImagesInAll(ns, env, hq).value ==> AllHtml(c)
    decreases ns
  {
    if ns != [] {
      FixImagesInHtml(ns[0], env, hq);
      FixImagesInAllHtml(ns[1..], env, hq);
    }
  }

  /** `fix_links` keeps the subtree serializable, and leaves every image
      pointing into the image directory without a `srcset`. */
  lemma FixLinksResult(n: Node, env: Env, hq: bool)
    requires AllHtml(n) && FixLinks(n, env, hq).Ok?
    ensures AllHtml(FixLinks(n, env, hq).value)
    ensures forall x :: x in Select(FixLinks(n, env, hq).value, Tag("img")) ==> LocalImage(x)
  {
    RemoveRefsHtml(n);
    var m := FixLinksIn(RemoveRefs(n), env).value;
    FixLinksInHtml(RemoveRefs(n), env);
    FixImagesInHtml(m, env, hq);
    FixImagesInLocal(m, env, hq);
  }
}
