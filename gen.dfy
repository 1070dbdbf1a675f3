/** `src/gen.rs`: the dictionary source written from the entries.  Every
    entry is one `<d:entry>`: its index values (the name, the Japanese name
    and one alias per new image caption), the header with number, name,
    categories and gallery, the two info-box tables, the summary, the body
    and a link back to the page.  Writing into a `String` cannot fail, so the
    `?` after every `writeln!` never fires; each piece is modelled as the
    text it appends. */
module Gen {
  import opened Wrappers
  import opened Strings
  import Xhtml
  import Index
  import MonGallery
  import Mon

  type MonImage = MonGallery.MonImage
  type MonEntry = Mon.MonEntry

  // ---------------------------------------------------------------------------
  // Escaping helpers

  /** `text(s)`: escaped for element content. */
  function Text(s: string): string
  {
    Xhtml.Escape(s, false)
  }

  /** `attr(s)`: escaped for a double-quoted attribute value. */
  function Attr(s: string): string
  {
    Xhtml.Escape(s, true)
  }

  const NoBreakSpace: string := "\U{00A0}"
  const Nbsp: string := "&nbsp;"
  const BoldItalic: string := "</b> <i"
  const LinkLink: string := "</a> <a"

  /** `raw(s)`: markup copied as is, except that the `&nbsp;` entity (which
      XML does not define) becomes the character itself, and the space
      between `</b>` and `<i` or between two links becomes a no-break space
      followed by `<wbr/>`, so that the dictionary compiler keeps it. */
  function Raw(s: string): string
  {
    var a := Replace(s, Nbsp, NoBreakSpace);
    var b := Replace(a, BoldItalic, "</b>" + NoBreakSpace + "<wbr/><i");
    Replace(b, LinkLink, "</a>" + NoBreakSpace + "<wbr/><a")
  }

  /** Markup that holds none of the three patterns is copied unchanged. */
  lemma RawKeeps(s: string)
    requires !Contains(s, Nbsp) && !Contains(s, BoldItalic) && !Contains(s, LinkLink)
    ensures Raw(s) == s
  {
    ReplaceAbsent(s, Nbsp, NoBreakSpace);
    ReplaceAbsent(s, BoldItalic, "</b>" + NoBreakSpace + "<wbr/><i");
    ReplaceAbsent(s, LinkLink, "</a>" + NoBreakSpace + "<wbr/><a");
  }

  /** An `&nbsp;` between markup that holds none of the three patterns
      becomes the no-break space, and nothing else changes: the character
      it leaves cannot start or complete a space rewrite. */
  lemma RawRewritesNbsp(a: string, b: string)
    requires !Contains(a, Nbsp) && !Contains(a, BoldItalic) && !Contains(a, LinkLink)
    requires !Contains(b, Nbsp) && !Contains(b, BoldItalic) && !Contains(b, LinkLink)
    ensures Raw(a + Nbsp + b) == a + NoBreakSpace + b
  {
    assert Nbsp[0] !in Nbsp[1..];
    ReplaceFirst(a, Nbsp, b, NoBreakSpace);
    ReplaceAbsent(b, Nbsp, NoBreakSpace);
    var m := a + NoBreakSpace + b;
    assert m == a + ['\U{00A0}'] + b;
    NotContainsAround(a, '\U{00A0}', b, BoldItalic);
    NotContainsAround(a, '\U{00A0}', b, LinkLink);
    ReplaceAbsent(m, BoldItalic, "</b>" + NoBreakSpace + "<wbr/><i");
    ReplaceAbsent(m, LinkLink, "</a>" + NoBreakSpace + "<wbr/><a");
  }

  // ---------------------------------------------------------------------------
  // Lines

  /** `writeln!`: the text and a line feed. */
  function Line(s: string): string
  {
    s + "\n"
  }

  /** One line per item, its raw markup between `before` and `after`: the
      categories loop and the two info-box loops. */
  function LinesOf(items: seq<string>, before: string, after: string): string
  {
    if items == [] then ""
    else LinesOf(items[..|items| - 1], before, after) + Line(before + Raw(items[|items| - 1]) + after)
  }

  /** The loop writing `LinesOf`. */
  method WriteLines(items: seq<string>, before: string, after: string) returns (out: string)
    ensures out == LinesOf(items, before, after)
  {
    out := "";
    for i := 0 to |items|
      invariant out == LinesOf(items[..i], before, after)
    {
      assert items[..i + 1][..i] == items[..i];
      out := out + Line(before + Raw(items[i]) + after);
    }
    assert items[..|items|] == items;
  }

  /** Every item has its own line: nothing is dropped. */
  lemma {:induction false} LinesOfContains(items: seq<string>, before: string, after: string, k: nat)
    requires k < |items|
    ensures Contains(LinesOf(items, before, after), Line(before + Raw(items[k]) + after))
  {
    var init := items[..|items| - 1];
    var last := Line(before + Raw(items[|items| - 1]) + after);
    if k == |items| - 1 {
      ContainsSuffix(LinesOf(init, before, after), last);
    } else {
      assert init[k] == items[k];
      LinesOfContains(init, before, after, k);
      ContainsExtend(LinesOf(init, before, after), last, Line(before + Raw(items[k]) + after));
    }
  }

  // ---------------------------------------------------------------------------
  // Index values

  /** `<d:index d:value="…" />` */
  function IndexLine(value: string): string
  {
    Line("<d:index d:value=\"" + Attr(value) + "\" />")
  }

  /** The `id` of the `i`-th gallery image. */
  function ImageId(i: nat): string
  {
    "pokemon-image-" + Decimal(i)
  }

  /** Different images have different ids, so every anchor names one image. */
  lemma ImageIdInjective(i: nat, j: nat)
    requires ImageId(i) == ImageId(j)
    ensures i == j
  {
    var p := "pokemon-image-";
    assert Decimal(i) == ImageId(i)[|p|..] && Decimal(j) == ImageId(j)[|p|..];
    DecimalValue(i);
    DecimalValue(j);
  }

  /** An index value that leads to the `i`-th image. */
  function AnchoredIndexLine(value: string, i: nat): string
  {
    Line("<d:index d:value=\"" + Attr(value) + "\" d:anchor=\"xpointer(//*[@id='" + ImageId(i) + "'])\" />")
  }

  /** The look-up name an image caption gives: the caption itself when it
      names the Pokémon, otherwise the name, a dash and the caption. */
  function CaptionAlias(name: string, caption: string): (r: string)
    ensures Contains(r, name)
  {
    if Contains(caption, name) then caption
    else
      assert StartsWith(name + " - " + caption, name) by {
        assert (name + " - " + caption)[..|name|] == name;
      }
      ContainsAt(name + " - " + caption, name, 0);
      name + " - " + caption
  }

  /** An index value written for a caption: the alias and its image. */
  datatype Alias = Alias(value: string, image: nat)

  /** The aliases written and the names seen after the caption loop has gone
      over `imgs`: a caption whose alias was already seen is skipped. */
  function AliasScan(name: string, jp: string, imgs: seq<MonImage>): (seq<Alias>, set<string>)
  {
    if imgs == [] then ([], {name, jp})
    else
      var p := AliasScan(name, jp, imgs[..|imgs| - 1]);
      var i := |imgs| - 1;
      match imgs[i].captionText
      case None => p
      case Some(t) =>
        var a := CaptionAlias(name, t);
        if a in p.1 then p else (p.0 + [Alias(a, i)], p.1 + {a})
  }

  function Aliases(mon: MonEntry): seq<Alias>
  {
    AliasScan(mon.name, mon.nameJpText, mon.images).0
  }

  /** The names of a list of aliases. */
  function AliasValues(xs: seq<Alias>): (r: set<string>)
    ensures forall k :: 0 <= k < |xs| ==> xs[k].value in r
    ensures forall v :: v in r ==> exists k :: 0 <= k < |xs| && xs[k].value == v
  {
    if xs == [] then {} else AliasValues(xs[..|xs| - 1]) + {xs[|xs| - 1].value}
  }

  function AliasLines(xs: seq<Alias>): string
  {
    if xs == [] then ""
    else AliasLines(xs[..|xs| - 1]) + AnchoredIndexLine(xs[|xs| - 1].value, xs[|xs| - 1].image)
  }

  /** The caption loop of `generate_mon`, with its set of names seen. */
  method WriteAliases(mon: MonEntry) returns (out: string)
    ensures out == AliasLines(Aliases(mon))
  {
    var namesSeen: set<string> := {mon.name, mon.nameJpText};
    ghost var found: seq<Alias> := [];
    out := "";
    for i := 0 to |mon.images|
      invariant (found, namesSeen) == AliasScan(mon.name, mon.nameJpText, mon.images[..i])
      invariant out == AliasLines(found)
    {
      assert mon.images[..i + 1][..i] == mon.images[..i];
      var img := mon.images[i];
      if img.captionText.Some? {
        var name := CaptionAlias(mon.name, img.captionText.value);
        if name in namesSeen {
          continue;
        }
        out := out + AnchoredIndexLine(name, i);
        namesSeen := namesSeen + {name};
        assert (found + [Alias(name, i)])[..|found|] == found;
        found := found + [Alias(name, i)];
      }
    }
    assert mon.images[..|mon.images|] == mon.images;
  }

  /** The set of names seen is the two names and the aliases written. */
  lemma {:induction false} AliasScanSeen(name: string, jp: string, imgs: seq<MonImage>)
    ensures AliasScan(name, jp, imgs).1 == {name, jp} + AliasValues(AliasScan(name, jp, imgs).0)
  {
    if imgs != [] {
      var init := imgs[..|imgs| - 1];
      AliasScanSeen(name, jp, init);
      var p := AliasScan(name, jp, init);
      match imgs[|imgs| - 1].captionText
      case None =>
      case Some(t) =>
        var a := CaptionAlias(name, t);
        if a !in p.1 {
          assert (p.0 + [Alias(a, |imgs| - 1)])[..|p.0|] == p.0;
        }
    }
  }

  /** No index value is written twice: the aliases are pairwise different and
      differ from the name and the Japanese name. */
  lemma {:induction false} AliasesDistinct(name: string, jp: string, imgs: seq<MonImage>)
    ensures forall k, l :: 0 <= k < l < |AliasScan(name, jp, imgs).0| ==>
      AliasScan(name, jp, imgs).0[k].value != AliasScan(name, jp, imgs).0[l].value
    ensures forall k :: 0 <= k < |AliasScan(name, jp, imgs).0| ==>
      AliasScan(name, jp, imgs).0[k].value != name && AliasScan(name, jp, imgs).0[k].value != jp
  {
    if imgs != [] {
      var init := imgs[..|imgs| - 1];
      AliasesDistinct(name, jp, init);
      AliasScanSeen(name, jp, init);
    }
  }

  /** Every alias comes from the caption of the image it points at, and the
      aliases follow the gallery order. */
  lemma {:induction false} AliasesFromCaptions(name: string, jp: string, imgs: seq<MonImage>)
    ensures forall k :: 0 <= k < |AliasScan(name, jp, imgs).0| ==>
      var x := AliasScan(name, jp, imgs).0[k];
      x.image < |imgs| && imgs[x.image].captionText.Some? &&
      x.value == CaptionAlias(name, imgs[x.image].captionText.value)
    ensures forall k, l :: 0 <= k < l < |AliasScan(name, jp, imgs).0| ==>
      AliasScan(name, jp, imgs).0[k].image < AliasScan(name, jp, imgs).0[l].image
  {
    if imgs != [] {
      var init := imgs[..|imgs| - 1];
      AliasesFromCaptions(name, jp, init);
      assert forall j :: 0 <= j < |init| ==> init[j] == imgs[j];
    }
  }

  /** Every caption is reachable: its alias is the name, the Japanese name or
      an alias written. */
  lemma {:induction false} AliasesComplete(name: string, jp: string, imgs: seq<MonImage>, j: nat)
    requires j < |imgs| && imgs[j].captionText.Some?
    ensures CaptionAlias(name, imgs[j].captionText.value) in AliasScan(name, jp, imgs).1
  {
    var init := imgs[..|imgs| - 1];
    if j < |init| {
      assert init[j] == imgs[j];
      AliasesComplete(name, jp, init, j);
    }
  }

  // ---------------------------------------------------------------------------
  // Gallery

  /** `render_image`: one list item with the image's id, the image and its caption. */
  function ImageMarkup(img: MonImage, i: nat): string
  {
    Line("<li class=\"pokemon-image\" id=\"" + ImageId(i) + "\">")
    + Line("<img alt=\"" + Attr(img.alt) + "\" src=\"" + Attr(img.src) + "\" style=\"width: " + Decimal(img.width) + "px\" />")
    + (match img.captionHtml case Some(c) => Line("<div class=\"image-caption\">" + Raw(c) + "</div>") case None => "")
    + Line("</li>")
  }

  /** How the gallery loop lays out the images: one image on its own, or a
      run of consecutive flex images (from index `start`) in one wrapper. */
  datatype Group = Single(index: nat, image: MonImage) | Run(start: nat, images: seq<MonImage>)

  /** The end of the run of flex images starting at `i`. */
  function RunEnd(imgs: seq<MonImage>, i: nat): (r: nat)
    requires i <= |imgs|
    ensures i <= r <= |imgs|
    decreases |imgs| - i
  {
    if i == |imgs| || !imgs[i].flex then i else RunEnd(imgs, i + 1)
  }

  /** The run is all flex images, and the image after it is not flex. */
  lemma {:induction false} RunEndSpec(imgs: seq<MonImage>, i: nat)
    requires i <= |imgs|
    ensures forall k :: i <= k < RunEnd(imgs, i) ==> imgs[k].flex
    ensures RunEnd(imgs, i) < |imgs| ==> !imgs[RunEnd(imgs, i)].flex
    decreases |imgs| - i
  {
    if i < |imgs| && imgs[i].flex {
      RunEndSpec(imgs, i + 1);
    }
  }

  /** The outer `while` loop from index `i`: a flex image followed by another
      opens a wrapper holding the whole run; any other image stands alone. */
  function Groups(imgs: seq<MonImage>, i: nat): seq<Group>
    requires i <= |imgs|
    decreases |imgs| - i
  {
    if i == |imgs| then []
    else if imgs[i].flex && i + 1 < |imgs| && imgs[i + 1].flex then
      var j := RunEnd(imgs, i);
      [Run(i, imgs[i..j])] + Groups(imgs, j)
    else [Single(i, imgs[i])] + Groups(imgs, i + 1)
  }

  /** The images of a run, each with its index. */
  function RunMarkup(start: nat, run: seq<MonImage>): string
  {
    if run == [] then ""
    else RunMarkup(start, run[..|run| - 1]) + ImageMarkup(run[|run| - 1], start + |run| - 1)
  }

  /** One more image of the run. */
  lemma RunMarkupStep(imgs: seq<MonImage>, start: nat, i: nat)
    requires start <= i < |imgs|
    ensures RunMarkup(start, imgs[start..i + 1]) == RunMarkup(start, imgs[start..i]) + ImageMarkup(imgs[i], i)
  {
    var run := imgs[start..i + 1];
    assert |run| == i + 1 - start;
    assert run[..|run| - 1] == imgs[start..i];
    assert run[|run| - 1] == imgs[i];
  }

  const FlexOpen: string := "<li class=\"pokemon-images-flex\"><ul>"
  const FlexClose: string := "</ul></li>"

  function GroupMarkup(g: Group): string
  {
    match g
    case Single(i, img) => ImageMarkup(img, i)
    case Run(start, run) => Line(FlexOpen) + RunMarkup(start, run) + Line(FlexClose)
  }

  function GroupsMarkup(gs: seq<Group>): string
  {
    if gs == [] then "" else GroupsMarkup(gs[..|gs| - 1]) + GroupMarkup(gs[|gs| - 1])
  }

  /** The items of the gallery list. */
  function ImagesMarkup(imgs: seq<MonImage>): string
  {
    GroupsMarkup(Groups(imgs, 0))
  }

  /** The inner `while` loop of the gallery: the run of flex images from
      `start`, in its wrapper; it ends at the first image that is not flex. */
  method WriteRun(imgs: seq<MonImage>, start: nat) returns (block: string, end: nat)
    requires start <= |imgs|
    ensures end == RunEnd(imgs, start)
    ensures block == GroupMarkup(Run(start, imgs[start..end]))
  {
    ghost var j := RunEnd(imgs, start);
    var items := "";
    var i := start;
    assert imgs[start..i] == [];
    while i < |imgs| && imgs[i].flex
      invariant start <= i <= |imgs| && RunEnd(imgs, i) == j
      invariant items == RunMarkup(start, imgs[start..i])
      decreases |imgs| - i
    {
      RunMarkupStep(imgs, start, i);
      items := items + ImageMarkup(imgs[i], i);
      i := i + 1;
    }
    block := Line(FlexOpen) + items + Line(FlexClose);
    end := i;
  }

  lemma GroupsMarkupSnoc(gs: seq<Group>, g: Group)
    ensures GroupsMarkup(gs + [g]) == GroupsMarkup(gs) + GroupMarkup(g)
  {
    assert (gs + [g])[..|gs|] == gs;
  }

  /** The gallery loop of `generate_mon`: an outer `while` over the images,
      with the inner one over each run of flex images. */
  method WriteImages(imgs: seq<MonImage>) returns (out: string)
    ensures out == ImagesMarkup(imgs)
  {
    out := "";
    ghost var done: seq<Group> := [];
    var i := 0;
    while i < |imgs|
      invariant i <= |imgs|
      invariant Groups(imgs, 0) == done + Groups(imgs, i)
      invariant out == GroupsMarkup(done)
      decreases |imgs| - i
    {
      var image := imgs[i];
      ghost var from := i;
      ghost var g: Group;
      ghost var next: nat;
      if image.flex && i + 1 < |imgs| && imgs[i + 1].flex {
        var block, end := WriteRun(imgs, i);
        g := Run(i, imgs[i..end]);
        next := end;
        out := out + block;
        i := end;
      } else {
        g := Single(i, image);
        next := i + 1;
        out := out + ImageMarkup(image, i);
        i := i + 1;
      }
      assert Groups(imgs, from) == [g] + Groups(imgs, next);
      GroupsMarkupSnoc(done, g);
      AppendAssoc(done, [g], Groups(imgs, next));
      done := done + [g];
    }
    assert done + [] == done;
  }

  function GroupSize(g: Group): nat
  {
    match g
    case Single(_, _) => 1
    case Run(_, run) => |run|
  }

  function GroupStart(g: Group): nat
  {
    match g
    case Single(i, _) => i
    case Run(start, _) => start
  }

  function GroupImages(g: Group): seq<MonImage>
  {
    match g
    case Single(_, img) => [img]
    case Run(_, run) => run
  }

  /** The groups cover `imgs[i..]` one after the other, each with the images
      at its own indices. */
  predicate Tiles(imgs: seq<MonImage>, gs: seq<Group>, i: nat)
    decreases |gs|
  {
    if gs == [] then i == |imgs|
    else
      var g := gs[0];
      GroupStart(g) == i && i + GroupSize(g) <= |imgs| &&
      GroupImages(g) == imgs[i..i + GroupSize(g)] && Tiles(imgs, gs[1..], i + GroupSize(g))
  }

  /** Every image is written exactly once, in order, under its own index. */
  lemma {:induction false} GroupsTile(imgs: seq<MonImage>, i: nat)
    requires i <= |imgs|
    ensures Tiles(imgs, Groups(imgs, i), i)
    decreases |imgs| - i
  {
    if i < |imgs| {
      if imgs[i].flex && i + 1 < |imgs| && imgs[i + 1].flex {
        var j := RunEnd(imgs, i);
        GroupsTile(imgs, j);
        assert ([Run(i, imgs[i..j])] + Groups(imgs, j))[1..] == Groups(imgs, j);
      } else {
        GroupsTile(imgs, i + 1);
        assert ([Single(i, imgs[i])] + Groups(imgs, i + 1))[1..] == Groups(imgs, i + 1);
      }
    }
  }

  /** Image `k` is part of a run of at least two consecutive flex images. */
  predicate InFlexRun(imgs: seq<MonImage>, k: nat)
    requires k < |imgs|
  {
    imgs[k].flex && ((k > 0 && imgs[k - 1].flex) || (k + 1 < |imgs| && imgs[k + 1].flex))
  }

  /** A group as the loop writes it: a wrapper holds a maximal run of at
      least two flex images; an image on its own is not part of such a run. */
  predicate GroupOk(imgs: seq<MonImage>, g: Group)
  {
    match g
    case Single(k, _) => k < |imgs| && !InFlexRun(imgs, k)
    case Run(a, run) =>
      |run| >= 2 && a + |run| <= |imgs| &&
      (forall k :: a <= k < a + |run| ==> imgs[k].flex) &&
      (a == 0 || !imgs[a - 1].flex) && (a + |run| == |imgs| || !imgs[a + |run|].flex)
  }

  /** Where the loop can stand: never between two flex images. */
  predicate Boundary(imgs: seq<MonImage>, i: nat)
    requires i <= |imgs|
  {
    i == 0 || i == |imgs| || !(imgs[i - 1].flex && imgs[i].flex)
  }

  /** Wrappers go exactly around the maximal runs of two or more flex images. */
  lemma {:induction false} GroupsMaximal(imgs: seq<MonImage>, i: nat)
    requires i <= |imgs| && Boundary(imgs, i)
    ensures forall g :: g in Groups(imgs, i) ==> GroupOk(imgs, g)
    decreases |imgs| - i
  {
    if i < |imgs| {
      if imgs[i].flex && i + 1 < |imgs| && imgs[i + 1].flex {
        var j := RunEnd(imgs, i);
        RunEndSpec(imgs, i);
        GroupsMaximal(imgs, j);
        assert |imgs[i..j]| == j - i;
        assert GroupOk(imgs, Run(i, imgs[i..j]));
      } else {
        GroupsMaximal(imgs, i + 1);
        assert GroupOk(imgs, Single(i, imgs[i]));
      }
    }
  }

  // ---------------------------------------------------------------------------
  // Info-box style

  /** The declarations `k:v;` of the keys `keys`, in that order. */
  function Declarations(style: map<string, string>, keys: seq<string>): string
    requires forall k :: k in keys ==> k in style
  {
    if keys == [] then ""
    else
      var last := keys[|keys| - 1];
      Declarations(style, keys[..|keys| - 1]) + last + ":" + style[last] + ";"
  }

  /** The folded style: the declarations in ascending key order, as a
      `BTreeMap` iterates. */
  function StyleString(style: map<string, string>): string
  {
    SortedStringsSpec(style.Keys);
    Declarations(style, SortedStrings(style.Keys))
  }

  lemma {:induction false} DeclarationsContain(style: map<string, string>, keys: seq<string>, j: nat)
    requires forall k :: k in keys ==> k in style
    requires j < |keys|
    ensures Contains(Declarations(style, keys), keys[j] + ":" + style[keys[j]] + ";")
  {
    var init := keys[..|keys| - 1];
    var last := keys[|keys| - 1];
    var d := last + ":" + style[last] + ";";
    assert Declarations(style, keys) == Declarations(style, init) + d;
    if j == |keys| - 1 {
      ContainsSuffix(Declarations(style, init), d);
    } else {
      assert init[j] == keys[j];
      DeclarationsContain(style, init, j);
      ContainsExtend(Declarations(style, init), d, keys[j] + ":" + style[keys[j]] + ";");
    }
  }

  /** Every property of the style is declared. */
  lemma StyleDeclaresAll(style: map<string, string>, k: string)
    requires k in style
    ensures Contains(StyleString(style), k + ":" + style[k] + ";")
  {
    var keys := SortedStrings(style.Keys);
    SortedStringsSpec(style.Keys);
    assert k in keys;
    var j :| 0 <= j < |keys| && keys[j] == k;
    DeclarationsContain(style, keys, j);
  }

  // ---------------------------------------------------------------------------
  // Entries

  function EntryOpen(mon: MonEntry): string
  {
    Line("<d:entry id=\"pokemon-" + Decimal(mon.dexId.n) + "\" d:title=\"" + Attr(mon.name) + "\">")
  }

  function InfoTableOpen(kind: string, style: string): string
  {
    Line("<table class=\"roundy " + kind + "\" style=\"" + Attr(style) + "\"><tbody>")
  }

  const TableClose: string := "</tbody></table>"

  /** Everything `generate_mon` appends for one entry. */
  function EntryMarkup(mon: MonEntry): string
  {
    var style := StyleString(mon.infoBoxStyle);
    EntryOpen(mon)
    + IndexLine(mon.name)
    + IndexLine(mon.nameJpText)
    + AliasLines(Aliases(mon))
    + Line("<div class=\"outer-container\">")
    + Line("<div class=\"pokedex-id\">" + Index.FormatDexId(mon.dexId) + "</div>")
    + Line("<h1 class=\"pokemon-name\">" + Text(mon.name) + "</h1>")
    + Line("<ul class=\"pokemon-categories\">")
    + LinesOf(mon.categoriesHtml, "<li>", "</li>")
    + Line("</ul>")
    + Line("<div class=\"pokemon-name-jp\">" + Raw(mon.nameJpHtml) + " (" + Raw(mon.nameJpTranslitHtml) + ")</div>")
    + Line("<ul class=\"pokemon-images\">")
    + ImagesMarkup(mon.images)
    + Line("</ul>")
    + InfoTableOpen("top-info-box", style)
    + LinesOf(mon.topInfoBoxesHtml, "", "")
    + Line(TableClose)
    + Line(Raw(mon.summaryHtml))
    + InfoTableOpen("extra-info-box", style)
    + LinesOf(mon.extraInfoBoxesHtml, "", "")
    + Line(TableClose)
    + Line(Raw(mon.bodyHtml))
    + Line("<div class=\"footer-read-more\"><a href=\"" + Attr(mon.url) + "\">Read more on Bulbapedia</a></div>")
    + Line("</div></d:entry>")
  }

  /** `generate_mon`: the text it appends to the output. */
  method GenerateMon(mon: MonEntry) returns (out: string)
    ensures out == EntryMarkup(mon)
  {
    out := EntryOpen(mon);
    out := out + IndexLine(mon.name);
    out := out + IndexLine(mon.nameJpText);
    var aliases := WriteAliases(mon);
    out := out + aliases;
    out := out + Line("<div class=\"outer-container\">");
    out := out + Line("<div class=\"pokedex-id\">" + Index.FormatDexId(mon.dexId) + "</div>");
    out := out + Line("<h1 class=\"pokemon-name\">" + Text(mon.name) + "</h1>");
    out := out + Line("<ul class=\"pokemon-categories\">");
    var categories := WriteLines(mon.categoriesHtml, "<li>", "</li>");
    out := out + categories;
    out := out + Line("</ul>");
    out := out + Line("<div class=\"pokemon-name-jp\">" + Raw(mon.nameJpHtml) + " (" + Raw(mon.nameJpTranslitHtml) + ")</div>");
    out := out + Line("<ul class=\"pokemon-images\">");
    var images := WriteImages(mon.images);
    out := out + images;
    out := out + Line("</ul>");
    var style := StyleString(mon.infoBoxStyle);
    out := out + InfoTableOpen("top-info-box", style);
    var top := WriteLines(mon.topInfoBoxesHtml, "", "");
    out := out + top;
    out := out + Line(TableClose);
    out := out + Line(Raw(mon.summaryHtml));
    out := out + InfoTableOpen("extra-info-box", style);
    var extra := WriteLines(mon.extraInfoBoxesHtml, "", "");
    out := out + extra;
    out := out + Line(TableClose);
    out := out + Line(Raw(mon.bodyHtml));
    out := out + Line("<div class=\"footer-read-more\"><a href=\"" + Attr(mon.url) + "\">Read more on Bulbapedia</a></div>");
    out := out + Line("</div></d:entry>");
  }

  /** Every alias anchor leads to an image of the gallery, which the gallery
      list writes under that id. */
  lemma AnchorsResolve(mon: MonEntry, k: nat)
    requires k < |Aliases(mon)|
    ensures Aliases(mon)[k].image < |mon.images|
  {
    AliasesFromCaptions(mon.name, mon.nameJpText, mon.images);
  }

  // ---------------------------------------------------------------------------
  // The dictionary

  const DictionaryHeader: string :=
    "<?xml version=\"1.0\" encoding=\"UTF-8\"?>\n<!-- generated file -->\n"
    + "<d:dictionary xmlns=\"http://www.w3.org/1999/xhtml\" xmlns:d=\"http://www.apple.com/DTDs/DictionaryService-1.0.rng\">\n"
  const DictionaryFooter: string := "</d:dictionary>"

  /** The entries in ascending number order, as a `BTreeMap` iterates. */
  function Ordered(pokemon: map<Index.DexId, MonEntry>): (r: seq<MonEntry>)
    ensures |r| == |pokemon.Keys|
  {
    var ids := Index.SortedIds(pokemon.Keys);
    Index.SortedIdsSpec(pokemon.Keys);
    seq(|ids|, k requires 0 <= k < |ids| => pokemon[ids[k]])
  }

  /** The `k`-th entry is that of the `k`-th number. */
  lemma OrderedAt(pokemon: map<Index.DexId, MonEntry>, k: nat)
    requires k < |pokemon.Keys|
    ensures Index.SortedIds(pokemon.Keys)[k] in pokemon
    ensures Ordered(pokemon)[k] == pokemon[Index.SortedIds(pokemon.Keys)[k]]
  {
    Index.SortedIdsSpec(pokemon.Keys);
  }

  /** The texts of the entries, in ascending number order. */
  function EntryTexts(pokemon: map<Index.DexId, MonEntry>): (r: seq<string>)
    ensures |r| == |pokemon.Keys|
  {
    Rendered(Ordered(pokemon), EntryMarkup)
  }

  /** The text of each entry, in the order given. */
  function Rendered(mons: seq<MonEntry>, render: MonEntry -> string): (r: seq<string>)
    ensures |r| == |mons|
  {
    if mons == [] then [] else Rendered(mons[..|mons| - 1], render) + [render(mons[|mons| - 1])]
  }

  /** The `k`-th text is the rendering of the `k`-th entry. */
  lemma {:induction false} RenderedAt(mons: seq<MonEntry>, render: MonEntry -> string, k: nat)
    requires k < |mons|
    ensures Rendered(mons, render)[k] == render(mons[k])
  {
    var init := mons[..|mons| - 1];
    if k < |init| {
      RenderedAt(init, render, k);
    }
  }

  /** The `k`-th text is the entry of the `k`-th number. */
  lemma EntryTextAt(pokemon: map<Index.DexId, MonEntry>, k: nat)
    requires k < |pokemon.Keys|
    ensures Index.SortedIds(pokemon.Keys)[k] in pokemon
    ensures EntryTexts(pokemon)[k] == EntryMarkup(pokemon[Index.SortedIds(pokemon.Keys)[k]])
  {
    OrderedAt(pokemon, k);
    RenderedAt(Ordered(pokemon), EntryMarkup, k);
  }

  /** The header followed by the given entry texts. */
  function Entries(texts: seq<string>): string
  {
    if texts == [] then DictionaryHeader else Entries(texts[..|texts| - 1]) + texts[|texts| - 1]
  }

  lemma EntriesSnoc(texts: seq<string>, t: string)
    ensures Entries(texts + [t]) == Entries(texts) + t
  {
    assert (texts + [t])[..|texts|] == texts;
  }

  /** The whole document: every entry in ascending number order between the
      header and the closing tag. */
  function Dictionary(pokemon: map<Index.DexId, MonEntry>): string
  {
    Document(EntryTexts(pokemon))
  }

  /** The header, the given entry texts and the closing tag. */
  function Document(texts: seq<string>): string
  {
    Entries(texts) + DictionaryFooter
  }

  lemma EntriesStep(texts: seq<string>, i: nat)
    requires i < |texts|
    ensures Entries(texts[..i + 1]) == Entries(texts[..i]) + texts[i]
  {
    assert texts[..i + 1][..i] == texts[..i];
  }

  /** One turn of the loop of `generate_dictionary`: the `i`-th entry in
      number order, which extends the output written so far. */
  method WriteEntry(pokemon: map<Index.DexId, MonEntry>, ids: seq<Index.DexId>, i: int) returns (entry: string)
    requires ids == Index.SortedIds(pokemon.Keys) && 0 <= i < |ids|
    ensures entry == EntryTexts(pokemon)[i]
    ensures Entries(EntryTexts(pokemon)[..i + 1]) == Entries(EntryTexts(pokemon)[..i]) + entry
  {
    EntryTextAt(pokemon, i);
    EntriesStep(EntryTexts(pokemon), i);
    entry := GenerateMon(pokemon[ids[i]]);
  }

  /** All the texts are the prefix as long as the numbers. */
  lemma EntriesAll(pokemon: map<Index.DexId, MonEntry>)
    ensures |Index.SortedIds(pokemon.Keys)| == |EntryTexts(pokemon)|
    ensures EntryTexts(pokemon)[..|Index.SortedIds(pokemon.Keys)|] == EntryTexts(pokemon)
  {
  }

  /** The loop of `generate_dictionary`: the header, then every entry in number order. */
  method WriteEntries(pokemon: map<Index.DexId, MonEntry>) returns (out: string)
    ensures out == Entries(EntryTexts(pokemon))
  {
    var ids := Index.SortedIds(pokemon.Keys);
    ghost var texts := EntryTexts(pokemon);
    EntriesAll(pokemon);
    out := DictionaryHeader;
    for i := 0 to |ids|
      invariant out == Entries(texts[..i])
    {
      var entry := WriteEntry(pokemon, ids, i);
      out := out + entry;
    }
  }

  /** `generate_dictionary`; it never fails, since writing an entry cannot. */
  method GenerateDictionary(pokemon: map<Index.DexId, MonEntry>) returns (r: Result<string>)
    ensures r == Ok(Dictionary(pokemon))
  {
    var out := WriteEntries(pokemon);
    r := Ok(out + DictionaryFooter);
  }

  /** Every entry is written: the entries before the `j`-th come first, and
      the `j`-th right after them. */
  lemma {:induction false} EntriesPrefix(texts: seq<string>, j: nat)
    requires j < |texts|
    ensures StartsWith(Entries(texts), Entries(texts[..j]) + texts[j])
    decreases |texts|
  {
    var init := texts[..|texts| - 1];
    if j == |texts| - 1 {
      assert init == texts[..j];
    } else {
      assert init[..j] == texts[..j] && init[j] == texts[j];
      EntriesPrefix(init, j);
      var p := Entries(texts[..j]) + texts[j];
      var e := Entries(init);
      assert (e + texts[|texts| - 1])[..|p|] == e[..|p|];
    }
  }

  lemma {:induction false} EntriesHeader(texts: seq<string>)
    ensures StartsWith(Entries(texts), DictionaryHeader)
  {
    if texts != [] {
      var init := texts[..|texts| - 1];
      EntriesHeader(init);
      var e := Entries(init);
      assert (e + texts[|texts| - 1])[..|DictionaryHeader|] == e[..|DictionaryHeader|];
    }
  }

  /** The document opens with the header and ends with the closing tag,
      whatever the entries. */
  lemma DocumentFrame(texts: seq<string>)
    ensures StartsWith(Document(texts), DictionaryHeader)
    ensures EndsWith(Document(texts), DictionaryFooter)
  {
    var e := Entries(texts);
    EntriesHeader(texts);
    assert (e + DictionaryFooter)[..|DictionaryHeader|] == e[..|DictionaryHeader|];
  }

  /** Entries come in ascending number order: the entry of a smaller number
      is written before the entry of a larger one (the text at each position
      is the entry of the number there, by `EntryTextAt`). */
  lemma EntriesAscending(pokemon: map<Index.DexId, MonEntry>, a: Index.DexId, b: Index.DexId)
    requires a in pokemon && b in pokemon && a.n < b.n
    ensures exists i, j ::
      0 <= i < j < |Index.SortedIds(pokemon.Keys)| &&
      Index.SortedIds(pokemon.Keys)[i] == a && Index.SortedIds(pokemon.Keys)[j] == b
  {
    var ids := Index.SortedIds(pokemon.Keys);
    Index.SortedIdsSpec(pokemon.Keys);
    var i :| 0 <= i < |ids| && ids[i] == a;
    var j :| 0 <= j < |ids| && ids[j] == b;
    if j <= i {
      assert false;
    }
  }
}
