/** `read_mon` of `src/mon.rs`: one parsed Pokémon page turned into a
    `MonEntry`.  The info box (`table.roundy`) gives the style, the header
    (names, categories, number and gallery) and the top and extra boxes; the
    children of `.mw-parser-output` give the summary and the body.  Every
    step that the source ends with `?` is a `:-` here. */
module Mon {
  import opened Wrappers
  import opened Strings
  import opened Dom
  import opened Urls
  import opened Style
  import opened Xhtml
  import opened MonLinks
  import opened MonInfo
  import opened MonGallery
  import opened MonBody
  import Index

  /** `Config` of `src/main.rs`. */
  datatype Config = Config(hqPokemonImages: bool, hqBodyImages: bool, maxBodySections: nat)

  /** `MonEntry` */
  datatype MonEntry = MonEntry(
    url: string,
    infoBoxStyle: map<string, string>,
    dexId: Index.DexId,
    name: string,
    categoriesHtml: seq<string>,
    nameJpText: string,
    nameJpHtml: string,
    nameJpTranslitHtml: string,
    images: seq<MonImage>,
    topInfoBoxesHtml: seq<string>,
    extraInfoBoxesHtml: seq<string>,
    summaryHtml: string,
    bodyHtml: string)

  /** What the name box yields. */
  datatype Names = Names(
    name: string,
    categoriesHtml: seq<string>,
    nameJpText: string,
    nameJpHtml: string,
    nameJpTranslitHtml: string)

  /** What the header box yields. */
  datatype Header = Header(names: Names, dexId: Index.DexId, images: seq<MonImage>)

  const InfoBox: Selector := TagClass("table", "roundy")
  const ParserOutput: Selector := Class("mw-parser-output")

  /** The markup of each node, one string per node. */
  function MarkupEach(ns: seq<Node>): (hs: seq<string>)
    ensures |hs| == |ns|
    ensures forall i :: 0 <= i < |ns| ==> hs[i] == Markup(ns[i])
  {
    seq(|ns|, i requires 0 <= i < |ns| => Markup(ns[i]))
  }

  // ---------------------------------------------------------------------------
  // The stages, as functions

  /** The name box: the English name from its `<big>`, the categories from
      the single element inside its `a[title]`, the Japanese name (`[lang='ja']`)
      and its transliteration (`<i>`). */
  function NameBox(nameBox: Node): Result<Names>
  {
    var table :- OkOr(FirstElChild(nameBox, "table"), "no name box > table");
    var tbody :- OkOr(FirstElChild(table, "tbody"), "no name box > table > tbody");
    var tr :- OkOr(FirstElChild(tbody, "tr"), "no name box > table > tbody > tr");
    var tds := ElementChildren(tr);
    if |tds| != 2 then Err("unexpected name box td count")
    else
      var big :- OkOr(SelectFirst(tds[0], Tag("big")), "missing name box <big>");
      var link :- OkOr(SelectFirst(tds[0], TagHasAttr("a", "title")), "missing name box categories");
      var items := ElementChildren(link);
      if |items| != 1 then Err("unexpected name box category item count")
      else
        var jp :- OkOr(SelectFirst(tds[1], AttrEquals("lang", "ja")), "could not find jp name");
        var translit :- OkOr(SelectFirst(tds[1], Tag("i")), "could not find jp translit");
        Ok(Names(Trim(TextContents(big)), CategoryFragments(ChildrenOf(items[0])),
          Trim(TextContents(jp)), Markup(jp), Markup(translit)))
  }

  /** The rows of the image box: `td > table > tbody`, then its element children. */
  function ImageRows(tr: Node): Result<seq<Node>>
  {
    var td :- OkOr(FirstElChild(tr, "td"), "no img box > td");
    var table :- OkOr(FirstElChild(td, "table"), "no img box > td > table");
    var tbody :- OkOr(FirstElChild(table, "tbody"), "no img box > td > table > tbody");
    Ok(ElementChildren(tbody))
  }

  /** The rows of the header box: `td > table > tbody`, then its element children. */
  function HeaderRows(header: Node): Result<seq<Node>>
  {
    var td :- OkOr(FirstElChild(header, "td"), "no header box > td");
    var table :- OkOr(FirstElChild(td, "table"), "no header box > td > table");
    var tbody :- OkOr(FirstElChild(table, "tbody"), "no header box > td > table > tbody");
    Ok(ElementChildren(tbody))
  }

  /** The header box: two rows, the first holding the name box and the
      number, the second the image box. */
  function HeaderBox(header: Node, env: Env, hq: bool): (r: Result<Header>)
    ensures r.Ok? ==> forall x :: x in r.value.images ==> StartsWith(x.src, "images/")
  {
    var trs :- HeaderRows(header);
    if |trs| != 2 then Err("unexpected header box tr count")
    else
      var items := ElementChildren(trs[0]);
      if |items| != 2 then Err("unexpected header box tr > td count")
      else
        var names :- NameBox(items[0]);
        var link :- OkOr(SelectFirst(items[1], Tag("a")), "could not find dex id");
        var dexId :- OkOr(Index.ParseDexId(Trim(TextContents(link))), "invalid dex id");
        var rows :- ImageRows(trs[1]);
        var images :- Gallery(rows, env, hq);
        GalleryFlex(rows, env, hq);
        Ok(Header(names, dexId, images))
  }

  /** The top and extra boxes with their links fixed, serialized one by one. */
  function InfoBoxesHtml(top: seq<Node>, extra: seq<Node>, env: Env, hq: bool): Result<(seq<string>, seq<string>)>
  {
    var topFixed :- Context(FixAll(top, env, hq), "error fixing info box links");
    var extraFixed :- Context(FixAll(extra, env, hq), "error fixing info box links");
    Ok((MarkupEach(topFixed), MarkupEach(extraFixed)))
  }

  /** The summary and the body of the article, serialized. */
  function Article(doc: Node, max: nat, env: Env, hq: bool): Result<(string, string)>
  {
    var output :- OkOr(SelectFirst(doc, ParserOutput), "no mw-parser-output");
    var split :- Context(BodySplit(ChildrenOf(output), max, env, hq), "error fixing summary links");
    Ok((MarkupAll(split.0), MarkupAll(split.1)))
  }

  /** The entry `read_mon` builds from the parsed page, or the first failure. */
  function MonOf(doc: Node, url: string, env: Env, config: Config): Result<MonEntry>
  {
    var infoBox :- OkOr(SelectFirst(doc, InfoBox), "could not find info box");
    var style := InfoBoxStyle(StyleOf(infoBox));
    var tbody :- OkOr(FirstElChild(infoBox, "tbody"), "no info box tbody");
    var rows := ElementChildren(tbody);
    if rows == [] then Err("no header box")
    else
      var (top, extra) := Partition(rows[1..]);
      var header :- HeaderBox(rows[0], env, config.hqPokemonImages);
      var boxes :- InfoBoxesHtml(top, extra, env, config.hqBodyImages);
      var article :- Article(doc, config.maxBodySections, env, config.hqBodyImages);
      Ok(MonEntry(url, style, header.dexId, header.names.name, header.names.categoriesHtml,
        header.names.nameJpText, header.names.nameJpHtml, header.names.nameJpTranslitHtml,
        header.images, boxes.0, boxes.1, article.0, article.1))
  }

  // ---------------------------------------------------------------------------
  // The stages, as the source runs them

  method ReadNameBox(nameBox: Node) returns (r: Result<Names>)
    requires AllHtml(nameBox)
    ensures r == NameBox(nameBox)
  {
    var table :- OkOr(FirstElChild(nameBox, "table"), "no name box > table");
    var tbody :- OkOr(FirstElChild(table, "tbody"), "no name box > table > tbody");
    var tr :- OkOr(FirstElChild(tbody, "tr"), "no name box > table > tbody > tr");
    ChildrenHtml(nameBox);
    ChildrenHtml(table);
    ChildrenHtml(tbody);
    ChildrenHtml(tr);
    var tds := ElementChildren(tr);
    if |tds| != 2 {
      return Err("unexpected name box td count");
    }
    var englishBox := tds[0];
    var big :- OkOr(SelectFirst(englishBox, Tag("big")), "missing name box <big>");
    var name := Trim(TextContents(big));
    var link :- OkOr(SelectFirst(englishBox, TagHasAttr("a", "title")), "missing name box categories");
    SelectFirstHtml(englishBox, TagHasAttr("a", "title"));
    ChildrenHtml(link);
    var items := ElementChildren(link);
    if |items| != 1 {
      return Err("unexpected name box category item count");
    }
    var categories := Categories(items[0]);
    var jpBox := tds[1];
    var jp :- OkOr(SelectFirst(jpBox, AttrEquals("lang", "ja")), "could not find jp name");
    SelectFirstHtml(jpBox, AttrEquals("lang", "ja"));
    var jpText := Trim(TextContents(jp));
    var jpHtml := OuterXhtml(jp);
    var translit :- OkOr(SelectFirst(jpBox, Tag("i")), "could not find jp translit");
    SelectFirstHtml(jpBox, Tag("i"));
    var translitHtml := OuterXhtml(translit);
    r := Ok(Names(name, categories, jpText, jpHtml, translitHtml));
  }

  method ReadHeaderRows(header: Node) returns (r: Result<seq<Node>>)
    requires AllHtml(header)
    ensures r == HeaderRows(header)
    ensures r.Ok? ==> forall tr :: tr in r.value ==> AllHtml(tr)
  {
    var td :- OkOr(FirstElChild(header, "td"), "no header box > td");
    ChildrenHtml(header);
    var table :- OkOr(FirstElChild(td, "table"), "no header box > td > table");
    ChildrenHtml(td);
    var tbody :- OkOr(FirstElChild(table, "tbody"), "no header box > td > table > tbody");
    ChildrenHtml(table);
    ChildrenHtml(tbody);
    r := Ok(ElementChildren(tbody));
  }

  method ReadImageRows(tr: Node) returns (r: Result<seq<Node>>)
    requires AllHtml(tr)
    ensures r == ImageRows(tr)
    ensures r.Ok? ==> forall row :: row in r.value ==> AllHtml(row)
  {
    var td :- OkOr(FirstElChild(tr, "td"), "no img box > td");
    ChildrenHtml(tr);
    var table :- OkOr(FirstElChild(td, "table"), "no img box > td > table");
    ChildrenHtml(td);
    var tbody :- OkOr(FirstElChild(table, "tbody"), "no img box > td > table > tbody");
    ChildrenHtml(table);
    ChildrenHtml(tbody);
    r := Ok(ElementChildren(tbody));
  }

  method ReadHeaderBox(header: Node, env: Env, hq: bool) returns (r: Result<Header>)
    requires AllHtml(header)
    ensures r == HeaderBox(header, env, hq)
  {
    var trs :- ReadHeaderRows(header);
    if |trs| != 2 {
      return Err("unexpected header box tr count");
    }
    ChildrenHtml(trs[0]);
    var items := ElementChildren(trs[0]);
    if |items| != 2 {
      return Err("unexpected header box tr > td count");
    }
    var names :- ReadNameBox(items[0]);
    var link :- OkOr(SelectFirst(items[1], Tag("a")), "could not find dex id");
    var dexId :- OkOr(Index.ParseDexId(Trim(TextContents(link))), "invalid dex id");
    var rows :- ReadImageRows(trs[1]);
    var images :- ReadGallery(rows, env, hq);
    r := Ok(Header(names, dexId, images));
  }

  /** The loop fixing the info boxes, then their serialization. */
  method ReadInfoBoxes(top: seq<Node>, extra: seq<Node>, env: Env, hq: bool) returns (r: Result<(seq<string>, seq<string>)>)
    requires forall n :: n in top ==> AllHtml(n)
    requires forall n :: n in extra ==> AllHtml(n)
    ensures r == InfoBoxesHtml(top, extra, env, hq)
  {
    var topResult := FixEach(top, env, hq);
    var topFixed :- Context(topResult, "error fixing info box links");
    var extraResult := FixEach(extra, env, hq);
    var extraFixed :- Context(extraResult, "error fixing info box links");
    FixAllHtml(top, env, hq);
    FixAllHtml(extra, env, hq);
    var topHtml := OuterEach(topFixed);
    var extraHtml := OuterEach(extraFixed);
    r := Ok((topHtml, extraHtml));
  }

  /** The loop over the children of `.mw-parser-output`, then the two folds. */
  method ReadArticle(doc: Node, max: nat, env: Env, hq: bool) returns (r: Result<(string, string)>)
    requires AllHtml(doc)
    ensures r == Article(doc, max, env, hq)
  {
    var output :- OkOr(SelectFirst(doc, ParserOutput), "no mw-parser-output");
    SelectFirstHtml(doc, ParserOutput);
    ChildrenHtml(output);
    var ns := ChildrenOf(output);
    var splitResult := SplitBody(ns, max, env, hq);
    var split :- Context(splitResult, "error fixing summary links");
    SplitFrom(ns, max);
    FixAllHtml(Summary(ns, max), env, hq);
    FixAllHtml(Body(ns, max), env, hq);
    var summaryHtml := OuterConcat(split.0);
    var bodyHtml := OuterConcat(split.1);
    r := Ok((summaryHtml, bodyHtml));
  }

  /** The loop calling `fix_links` on each node in turn. */
  method FixEach(ns: seq<Node>, env: Env, hq: bool) returns (r: Result<seq<Node>>)
    ensures r == FixAll(ns, env, hq)
  {
    var fixed := [];
    for i := 0 to |ns|
      invariant FixAll(ns[..i], env, hq) == Ok(fixed)
    {
      assert ns[..i + 1] == ns[..i] + [ns[i]];
      FixAllSnoc(ns[..i], ns[i], env, hq);
      match FixLinks(ns[i], env, hq)
      case Err(e) =>
        FixAllAppend(ns[..i + 1], ns[i + 1..], env, hq);
        assert ns[..i + 1] + ns[i + 1..] == ns;
        return Err(e);
      case Ok(m) =>
        fixed := fixed + [m];
    }
    assert ns[..|ns|] == ns;
    r := Ok(fixed);
  }

  /** `.map(outer_xhtml).collect()` */
  method OuterEach(ns: seq<Node>) returns (hs: seq<string>)
    requires forall n :: n in ns ==> AllHtml(n)
    ensures hs == MarkupEach(ns)
  {
    hs := [];
    for i := 0 to |ns|
      invariant hs == MarkupEach(ns[..i])
    {
      var h := OuterXhtml(ns[i]);
      hs := hs + [h];
    }
    assert ns[..|ns|] == ns;
  }

  /** `.fold(String::new(), |s, node| s + &outer_xhtml(&node))` */
  method OuterConcat(ns: seq<Node>) returns (s: string)
    requires forall n :: n in ns ==> AllHtml(n)
    ensures s == MarkupAll(ns)
  {
    s := "";
    for i := 0 to |ns|
      invariant s == MarkupAll(ns[..i])
    {
      assert ns[..i + 1][..i] == ns[..i];
      var h := OuterXhtml(ns[i]);
      s := s + h;
    }
    assert ns[..|ns|] == ns;
  }

  /** The info boxes of an HTML page are HTML. */
  lemma PartitionHtml(tbody: Node)
    requires AllHtml(tbody) && ElementChildren(tbody) != []
    ensures forall n :: n in Partition(ElementChildren(tbody)[1..]).0 ==> AllHtml(n)
    ensures forall n :: n in Partition(ElementChildren(tbody)[1..]).1 ==> AllHtml(n)
  {
    var rows := ElementChildren(tbody);
    ChildrenHtml(tbody);
    PartitionSplits(rows[1..]);
    var p := Partition(rows[1..]);
    assert forall n :: n in p.0 ==> n in rows[1..];
    assert forall n :: n in p.1 ==> n in rows[1..];
  }

  /** The style of the info box, restricted to the kept properties. */
  method ReadInfoBoxStyle(infoBox: Node) returns (style: map<string, string>)
    ensures style == InfoBoxStyle(StyleOf(infoBox))
  {
    var parsed: map<string, string> := map[];
    match GetAttr(infoBox, "style") {
      case Some(s) =>
        parsed := ParseSimpleStyleAttr(s);
      case None =>
    }
    style := InfoBoxStyle(parsed);
  }

  /** `read_mon` on the parsed page; `env.base` is the page URL as `Url::parse` gives it. */
  method ReadMon(doc: Node, url: string, env: Env, config: Config) returns (r: Result<MonEntry>)
    requires AllHtml(doc)
    ensures r == MonOf(doc, url, env, config)
  {
    var infoBox :- OkOr(SelectFirst(doc, InfoBox), "could not find info box");
    SelectFirstHtml(doc, InfoBox);
    var style := ReadInfoBoxStyle(infoBox);
    var tbody :- OkOr(FirstElChild(infoBox, "tbody"), "no info box tbody");
    ChildrenHtml(infoBox);
    ChildrenHtml(tbody);
    var rows := ElementChildren(tbody);
    var headerBox, top, extra := PartitionInfoRows(rows);
    if headerBox.None? {
      return Err("no header box");
    }
    var header :- ReadHeaderBox(headerBox.value, env, config.hqPokemonImages);
    PartitionHtml(tbody);
    var boxes :- ReadInfoBoxes(top, extra, env, config.hqBodyImages);
    var article :- ReadArticle(doc, config.maxBodySections, env, config.hqBodyImages);
    r := Ok(MonEntry(url, style, header.dexId, header.names.name, header.names.categoriesHtml,
      header.names.nameJpText, header.names.nameJpHtml, header.names.nameJpTranslitHtml,
      header.images, boxes.0, boxes.1, article.0, article.1));
  }

  // ---------------------------------------------------------------------------
  // Properties of the entry

  /** A page without an info box is rejected before anything else is read. */
  lemma MonOfNoInfoBox(doc: Node, url: string, env: Env, config: Config)
    requires SelectFirst(doc, InfoBox).None?
    ensures MonOf(doc, url, env, config) == Err("could not find info box")
  {
  }

  /** An info box whose body has no element row has no header box. */
  lemma MonOfNoHeader(doc: Node, url: string, env: Env, config: Config)
    requires SelectFirst(doc, InfoBox).Some?
    requires FirstElChild(SelectFirst(doc, InfoBox).value, "tbody").Some?
    requires ElementChildren(FirstElChild(SelectFirst(doc, InfoBox).value, "tbody").value) == []
    ensures MonOf(doc, url, env, config) == Err("no header box")
  {
  }

  /** The rows of the info box of a page that has one. */
  function InfoRows(doc: Node): Option<seq<Node>>
  {
    match SelectFirst(doc, InfoBox)
    case None => None
    case Some(infoBox) =>
      match FirstElChild(infoBox, "tbody")
      case None => None
      case Some(tbody) => Some(ElementChildren(tbody))
  }

  /** A read entry keeps the page URL and only the allowed style
      properties; every info-box row after the header becomes exactly one
      top or extra box, in order; every image points at a local file. */
  lemma MonOfEntry(doc: Node, url: string, env: Env, config: Config)
    ensures MonOf(doc, url, env, config).Ok? ==> InfoRows(doc).Some? && InfoRows(doc).value != []
    ensures MonOf(doc, url, env, config).Ok? ==> var e := MonOf(doc, url, env, config).value;
      && e.url == url
      && (forall k :: k in e.infoBoxStyle ==> k in InfoBoxKeys)
      && |e.topInfoBoxesHtml| + |e.extraInfoBoxesHtml| == |InfoRows(doc).value| - 1
      && (forall x :: x in e.images ==> StartsWith(x.src, "images/"))
  {
    if MonOf(doc, url, env, config).Ok? {
      var infoBox := SelectFirst(doc, InfoBox).value;
      var tbody := FirstElChild(infoBox, "tbody").value;
      var rows := ElementChildren(tbody);
      var p := Partition(rows[1..]);
      var hq := config.hqBodyImages;
      var header := HeaderBox(rows[0], env, config.hqPokemonImages);
      var boxes := InfoBoxesHtml(p.0, p.1, env, hq);
      var article := Article(doc, config.maxBodySections, env, hq);
      assert rows != [];
      assert header.Ok? && boxes.Ok? && article.Ok?;
      var h := header.value;
      assert MonOf(doc, url, env, config).value == MonEntry(url, InfoBoxStyle(StyleOf(infoBox)), h.dexId,
        h.names.name, h.names.categoriesHtml, h.names.nameJpText, h.names.nameJpHtml,
        h.names.nameJpTranslitHtml, h.images, boxes.value.0, boxes.value.1, article.value.0, article.value.1);
      BoxesCount(p.0, p.1, env, hq);
      PartitionSplits(rows[1..]);
    }
  }

  lemma BoxesCount(top: seq<Node>, extra: seq<Node>, env: Env, hq: bool)
    requires InfoBoxesHtml(top, extra, env, hq).Ok?
    ensures |InfoBoxesHtml(top, extra, env, hq).value.0| == |top|
    ensures |InfoBoxesHtml(top, extra, env, hq).value.1| == |extra|
  {
    FixAllLength(top, env, hq);
    FixAllLength(extra, env, hq);
  }
}
