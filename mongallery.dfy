/** The image gallery of `read_mon` in `src/mon.rs`: the rows of the image
    box, of which hidden rows and hidden cells are skipped; every visible
    cell holding an `<img>` gives one image, marked `flex` when its row has
    more than one visible cell; a visible cell without an image is an error
    unless the row mentions the archives. */
module MonGallery {
  import opened Wrappers
  import opened Strings
  import opened Dom
  import opened Urls
  import opened Style
  import opened Xhtml
  import opened MonLinks
  import opened Results

  /** `MonImage` */
  datatype MonImage = MonImage(
    href: string,
    alt: string,
    width: u32,
    src: string,
    captionText: Option<string>,
    captionHtml: Option<string>,
    flex: bool)

  /** The inline style of a node, parsed; none when it has no `style`. */
  function StyleOf(n: Node): map<string, string>
  {
    match GetAttr(n, "style")
    case Some(s) => ParseStyle(s)
    case None => map[]
  }

  /** `display: none` */
  predicate Hidden(n: Node)
  {
    DisplayNone(StyleOf(n))
  }

  /** The number of cells that are not hidden. */
  function VisibleCount(cells: seq<Node>): nat
  {
    if cells == [] then 0 else (if Hidden(cells[0]) then 0 else 1) + VisibleCount(cells[1..])
  }

  /** The first `<img>` of a cell (the cell itself included) with the node
      whose child it is: the row when the cell is the image. */
  function CellImage(tr: Node, td: Node): Option<(Node, Node)>
  {
    if Matches(td, Tag("img")) then Some((tr, td)) else FirstWithParent(td, Tag("img"))
  }

  /** `CellImage` finds the image `select_first("img")` finds, with its parent. */
  lemma CellImageAgrees(tr: Node, td: Node)
    requires td in ChildrenOf(tr)
    ensures CellImage(tr, td).Some? <==> SelectFirst(td, Tag("img")).Some?
    ensures CellImage(tr, td).Some? ==>
      CellImage(tr, td).value.1 == SelectFirst(td, Tag("img")).value
      && CellImage(tr, td).value.1 in ChildrenOf(CellImage(tr, td).value.0)
  {
    if !Matches(td, Tag("img")) {
      FirstWithParentAgrees(td, Tag("img"));
    }
  }

  /** The caption of a cell: the text and the inner markup of its first `<small>`. */
  function Caption(td: Node): (Option<string>, Option<string>)
  {
    match SelectFirst(td, Tag("small"))
    case Some(c) => (Some(TextContents(c)), Some(MarkupAll(ChildrenOf(c))))
    case None => (None, None)
  }

  /** One cell of the gallery: nothing, one image, or the error that ends the gallery. */
  function ReadCell(tr: Node, td: Node, env: Env, hq: bool, flex: bool): (r: Result<seq<MonImage>>)
    ensures Hidden(td) ==> r == Ok([])
    ensures r.Ok? ==> |r.value| <= 1 && forall x :: x in r.value ==> x.flex == flex && StartsWith(x.src, "images/")
    ensures !Hidden(td) && CellImage(tr, td).None? ==> (r.Err? <==> !Contains(TextContents(tr), "Archives"))
    ensures !Hidden(td) && CellImage(tr, td).Some? && r.Ok? ==> |r.value| == 1
  {
    if Hidden(td) then Ok([])
    else
      match CellImage(tr, td)
      case None =>
        if Contains(TextContents(tr), "Archives") then Ok([]) else Err("unexpected img box child: " + Markup(tr))
      case Some((parent, img)) =>
        match HighestQualitySrc(img, env.base, env.join, hq)
        case None => Err("no img src")
        case Some(src) =>
          match env.cache(src)
          case Err(e) => Err(e)
          case Ok(id) =>
            match env.join(env.base, GetOr(GetAttr(parent, "href"), ""))
            case None => Err("invalid img link")
            case Some(href) =>
              match ParseU32(GetOr(GetAttr(img, "width"), ""))
              case None => Err("error parsing img width")
              case Some(width) =>
                var caption := Caption(td);
                Ok([MonImage(Serialize(href), GetOr(GetAttr(img, "alt"), ""), width,
                  ImageSrc(id, env), caption.0, caption.1, flex)])
  }

  /** An image cell fails when it has no usable source, when the cache
      cannot provide it, when its link does not resolve or when its width is
      not a number; otherwise its image has the alt text, the width and the
      caption of the cell, and links where the image's parent links. */
  lemma ReadCellImage(tr: Node, td: Node, env: Env, hq: bool, flex: bool)
    requires !Hidden(td) && CellImage(tr, td).Some?
    ensures var (parent, img) := CellImage(tr, td).value;
      var src := HighestQualitySrc(img, env.base, env.join, hq);
      var href := env.join(env.base, GetOr(GetAttr(parent, "href"), ""));
      var width := ParseU32(GetOr(GetAttr(img, "width"), ""));
      && (ReadCell(tr, td, env, hq, flex).Ok? <==>
            src.Some? && env.cache(src.value).Ok? && href.Some? && width.Some?)
      && (ReadCell(tr, td, env, hq, flex).Ok? ==>
            ReadCell(tr, td, env, hq, flex).value == [MonImage(Serialize(href.value), GetOr(GetAttr(img, "alt"), ""),
              width.value, ImageSrc(env.cache(src.value).value, env), Caption(td).0, Caption(td).1, flex)])
  {
  }

  /** The body of the cells loop for one cell. */
  method ReadCellStep(tr: Node, td: Node, env: Env, hq: bool, flex: bool) returns (r: Result<seq<MonImage>>)
    requires AllHtml(tr) && td in ChildrenOf(tr)
    ensures r == ReadCell(tr, td, env, hq, flex)
  {
    if Hidden(td) {
      return Ok([]);
    }
    assert AllHtml(td);
    match CellImage(tr, td)
    case Some((parent, img)) =>
      var src := HighestQualitySrc(img, env.base, env.join, hq);
      if src.None? {
        return Err("no img src");
      }
      var imageId := env.cache(src.value);
      if imageId.Err? {
        return Err(imageId.message);
      }
      var href := env.join(env.base, GetOr(GetAttr(parent, "href"), ""));
      if href.None? {
        return Err("invalid img link");
      }
      var alt := GetOr(GetAttr(img, "alt"), "");
      var width := ParseU32(GetOr(GetAttr(img, "width"), ""));
      if width.None? {
        return Err("error parsing img width");
      }
      var captionText: Option<string> := None;
      var captionHtml: Option<string> := None;
      match SelectFirst(td, Tag("small")) {
        case Some(caption) =>
          SelectAllHtml(td, Tag("small"));
          assert caption == Select(td, Tag("small"))[0];
          var html := InnerXhtml(caption);
          captionText, captionHtml := Some(TextContents(caption)), Some(html);
        case None =>
      }
      r := Ok([MonImage(Serialize(href.value), alt, width.value,
        ImageSrc(imageId.value, env), captionText, captionHtml, flex)]);
    case None =>
      if !Contains(TextContents(tr), "Archives") {
        var html := OuterXhtml(tr);
        return Err("unexpected img box child: " + html);
      }
      r := Ok([]);
  }

  function CellResults(tr: Node, cells: seq<Node>, env: Env, hq: bool, flex: bool): (rs: seq<Result<seq<MonImage>>>)
    ensures |rs| == |cells|
    ensures forall j :: 0 <= j < |cells| ==> rs[j] == ReadCell(tr, cells[j], env, hq, flex)
  {
    seq(|cells|, j requires 0 <= j < |cells| => ReadCell(tr, cells[j], env, hq, flex))
  }

  /** Whether the images of a row are laid out side by side. */
  predicate RowFlex(tr: Node)
  {
    VisibleCount(ElementChildren(tr)) > 1
  }

  /** The images of one row, or the first error among its cells. */
  function RowImages(tr: Node, env: Env, hq: bool): Result<seq<MonImage>>
  {
    if Hidden(tr) then Ok([]) else Flatten(CellResults(tr, ElementChildren(tr), env, hq, RowFlex(tr)))
  }

  function RowResults(rows: seq<Node>, env: Env, hq: bool): (rs: seq<Result<seq<MonImage>>>)
    ensures |rs| == |rows|
    ensures forall i :: 0 <= i < |rows| ==> rs[i] == RowImages(rows[i], env, hq)
  {
    seq(|rows|, i requires 0 <= i < |rows| => RowImages(rows[i], env, hq))
  }

  /** The images of the gallery rows, or the first error. */
  function Gallery(rows: seq<Node>, env: Env, hq: bool): Result<seq<MonImage>>
  {
    Flatten(RowResults(rows, env, hq))
  }

  /** The gallery loop of `read_mon` over the rows of the image box. */
  method ReadGallery(rows: seq<Node>, env: Env, hq: bool) returns (r: Result<seq<MonImage>>)
    requires forall tr :: tr in rows ==> AllHtml(tr)
    ensures r == Gallery(rows, env, hq)
  {
    var images := [];
    ghost var rs := RowResults(rows, env, hq);
    for i := 0 to |rows|
      invariant Flatten(rs[..i]) == Ok(images)
    {
      assert rows[i] in rows;
      FlattenStep(rs, i);
      var row := ReadRowImages(rows[i], env, hq);
      if row.Err? {
        FlattenStepErr(rs, i, row.message);
        return row;
      }
      images := images + row.value;
    }
    FlattenAll(rs);
    r := Ok(images);
  }

  /** The inner loop of the gallery, over the cells of one row. */
  method ReadRowImages(tr: Node, env: Env, hq: bool) returns (r: Result<seq<MonImage>>)
    requires AllHtml(tr)
    ensures r == RowImages(tr, env, hq)
  {
    if Hidden(tr) {
      return Ok([]);
    }
    var flex := VisibleCount(ElementChildren(tr)) > 1;
    var cells := ElementChildren(tr);
    ghost var cs := CellResults(tr, cells, env, hq, flex);
    var images := [];
    for j := 0 to |cells|
      invariant Flatten(cs[..j]) == Ok(images)
    {
      FlattenStep(cs, j);
      var cell := ReadCellStep(tr, cells[j], env, hq, flex);
      if cell.Err? {
        FlattenStepErr(cs, j, cell.message);
        return cell;
      }
      images := images + cell.value;
    }
    FlattenAll(cs);
    r := Ok(images);
  }

  /** Every image of a row carries the row's `flex` flag and a local `src`. */
  lemma RowImagesFlex(tr: Node, env: Env, hq: bool)
    requires RowImages(tr, env, hq).Ok?
    ensures forall x :: x in RowImages(tr, env, hq).value ==> x.flex == RowFlex(tr) && StartsWith(x.src, "images/")
  {
    if !Hidden(tr) {
      var cs := CellResults(tr, ElementChildren(tr), env, hq, RowFlex(tr));
      FlattenOk(cs);
    }
  }

  /** Every image of the gallery comes from a visible row and carries that
      row's `flex` flag: side by side exactly when the row has more than one
      visible cell; and every source is a local image file. */
  lemma GalleryFlex(rows: seq<Node>, env: Env, hq: bool)
    requires Gallery(rows, env, hq).Ok?
    ensures forall x :: x in Gallery(rows, env, hq).value ==>
      StartsWith(x.src, "images/") && exists i :: 0 <= i < |rows| && !Hidden(rows[i]) && x.flex == RowFlex(rows[i])
  {
    var rs := RowResults(rows, env, hq);
    FlattenOk(rs);
    forall x | x in Gallery(rows, env, hq).value
      ensures StartsWith(x.src, "images/") && exists i :: 0 <= i < |rows| && !Hidden(rows[i]) && x.flex == RowFlex(rows[i])
    {
      var i :| 0 <= i < |rs| && x in rs[i].value;
      RowImagesFlex(rows[i], env, hq);
    }
  }

  /** A visible cell without an image, in a visible row that does not
      mention the archives, makes the gallery fail. */
  lemma UnexpectedCell(rows: seq<Node>, i: nat, j: nat, env: Env, hq: bool)
    requires i < |rows| && !Hidden(rows[i]) && !Contains(TextContents(rows[i]), "Archives")
    requires j < |ElementChildren(rows[i])|
    requires !Hidden(ElementChildren(rows[i])[j]) && CellImage(rows[i], ElementChildren(rows[i])[j]).None?
    ensures Gallery(rows, env, hq).Err?
  {
    var tr := rows[i];
    var cs := CellResults(tr, ElementChildren(tr), env, hq, RowFlex(tr));
    assert cs[j].Err?;
    FlattenErr(cs);
    var rs := RowResults(rows, env, hq);
    assert rs[i].Err?;
    FlattenErr(rs);
  }
}
