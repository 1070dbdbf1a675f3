# pokedex-dictgen in Dafny

A model of the core of `pokedex-dictgen`. The program reads Bulbapedia's
Pokémon pages and writes the source of a macOS Dictionary Services
dictionary.

The model covers five files:

- `src/mon.rs`: `read_mon` turns one parsed page into a `MonEntry`. That
  entry holds the info-box style, the names and categories, the National
  Pokédex number, the image gallery, the top and extra info boxes, the
  summary and the body. `fix_links` rewrites links and images.
  `get_highest_quality_src` and `get_image_thumbnail_origin` choose the
  image to fetch.
- `src/xhtml.rs`: the escaper and the XHTML serializer.
- `src/gen.rs`: `generate_mon` and `generate_dictionary` write the
  dictionary text.
- `src/index.rs`: the `DexId` type with its text forms, and the `read_index`
  loop.
- `src/image.rs`: `get_image_id_ext`, which gives the name under which an
  image is cached.

Each module follows one stage of the program:

- `Wrappers`: `Option`, and `Result` with an error message.
- `Strings`: the parts of Rust's `str`/`u32` API the program relies on.
- `Maps`: a map built by inserting pairs in order.
- `Results`: a loop that stops at the first `?` that fails.
- `Dom`: the document tree, the fixed selectors and the attribute helpers.
- `Urls`: URLs as path segments, with `Url::join` and `urlencoding::encode`
  as function parameters.
- `Xhtml`: the escaper; the serializer as a class with an output buffer.
- `Style`: `parse_simple_style_attr` and the info-box filter.
- `Image`: `get_image_id_ext`.
- `Index`: `DexId`, its text forms and `read_index`.
- `MonLinks`: `srcset`, the thumbnail origin and `fix_links`.
- `MonInfo`: the info-box rows and the category fragments.
- `MonGallery`: the image gallery.
- `MonBody`: the split into summary and body.
- `Mon`: `read_mon` as a whole.
- `Gen`: the dictionary text.

Where the code works by mutation, the model is imperative:

- `read_mon`'s loops and counters;
- the inserts of `parse_simple_style_attr` and `read_index`;
- the serializer's output buffer;
- `generate_mon`'s `writeln!` calls, nested gallery loop and set of names
  seen.

Each of these methods is proved equal to a function on values. The
properties are stated and proved about those functions.

The model follows the code in these points:

- `DexId` wraps any `u32`, 0 included. It has no predecessor or successor
  operation.
- The serializer never writes a self-closing tag. Every element gets an
  explicit end tag.
- The name box, the Japanese name, the transliteration and the number link
  are each the *first* match (`select_first`). The code does not require
  them to be the only match.
- The index holds only the page URL of each number. There are no
  generation groups.
- A dictionary link is `x-dictionary:r:pokemon-<n>`, with the number not
  padded.

## Model

| member | source | states |
|---|---|---|
| Strings.TrimStartSpec | src/mon.rs:427-429 | `trim_start` removes exactly the leading white space: the result is a suffix, its first character is not white space, and every removed character is |
| Strings.TrimEndSpec | src/mon.rs:427-429 | `trim_end` removes exactly the trailing white space: the result is a prefix, its last character is not white space, and every removed character is |
| Strings.TrimIsTrimmed | src/mon.rs:427-429 | a trimmed string has white space at neither end, and trimming is idempotent |
| Strings.TrimKeeps | src/mon.rs:427 | trimming only removes characters, only white space ones, and keeps every other character |
| Strings.ContainsIff | src/mon.rs:477 | `contains` holds exactly when the pattern occurs at some position |
| Strings.ContainsExtend | src/gen.rs:56 | what a string contains, any extension of it contains |
| Strings.ContainsSuffix | src/gen.rs:56 | `a + b` contains `b` |
| Strings.ContainsAppend | src/mon.rs:477 | what `b` contains, `a + b` contains |
| Strings.Split | src/mon.rs:426 | `split` always yields at least one piece |
| Strings.SplitSpec | src/mon.rs:426 | no piece holds the separator, and joining the pieces with it gives the input back |
| Strings.SplitCount | src/image.rs:39 | there is one piece more than the input has separators |
| Strings.SplitNone | src/image.rs:39 | a string without the separator is a single piece |
| Strings.SplitFirst | src/image.rs:39 | splitting `a + c + b` with `c` not in `a` gives `a` and then the pieces of `b` |
| Strings.JoinLength | src/image.rs:41 | the joined string is as long as the pieces plus one separator between each pair |
| Strings.SplitOnce | src/mon.rs:428 | `split_once` fails exactly when the character is absent; otherwise it cuts at the first occurrence |
| Strings.SplitOnceUnique | src/mon.rs:428 | the only cut whose left part has no separator is the one `split_once` returns |
| Strings.RSplitOnce | src/mon.rs:454 | `rsplit_once` fails exactly when the character is absent; otherwise it cuts at the last occurrence |
| Strings.RSplitOnceUnique | src/image.rs:36 | the only cut whose right part has no separator is the one `rsplit_once` returns |
| Strings.ReplaceAbsent | src/gen.rs:33-40 | replacing a pattern that does not occur changes nothing |
| Strings.ReplaceFirst | src/gen.rs:33-40 | the first occurrence of a pattern, preceded by text without it, is replaced and the rest is replaced in turn |
| Strings.NotContainsAround | src/gen.rs:37-39 | joining two texts without a pattern around a character the pattern lacks does not create the pattern |
| Strings.TrimStartMatchesSpec | src/image.rs:31-34 | `trim_start_matches` removes only whole leading copies of the pattern, and what is left does not start with it |
| Strings.LessIrreflexive | src/mon.rs:17 | the byte-wise order of `String` keys is irreflexive |
| Strings.LessTransitive | src/mon.rs:17 | the order is transitive |
| Strings.LessTotal | src/mon.rs:17 | the order is total on distinct strings |
| Strings.LessAsymmetric | src/mon.rs:17 | the order is asymmetric |
| Strings.LeastExists | src/gen.rs:120-124 | every non-empty set of keys has a least element |
| Strings.LeastUnique | src/gen.rs:120-124 | the least element is unique |
| Strings.SortedStrings | src/gen.rs:120-124 | the `BTreeMap<String, _>` key iteration has one key per element of the set |
| Strings.SortedStringsSpec | src/gen.rs:120-124 | the keys come strictly increasing and are exactly those of the map |
| Strings.SortedStringsMembers | src/gen.rs:120-124 | the iterated keys are exactly those of the map |
| Strings.ParseU32 | src/index.rs:19 | `u32::from_str` succeeds only on a string that starts with `+` or a digit |
| Strings.ParseDigits | src/index.rs:19 | a non-empty digit string whose value fits in 32 bits parses as that value |
| Strings.Decimal | src/gen.rs:46 | `{}` of a number is a non-empty digit string without a leading zero |
| Strings.DecimalValue | src/gen.rs:46 | reading the decimal form back gives the number |
| Strings.ZeroPadded | src/index.rs:35 | `{:04}` gives digits only |
| Strings.LeadingZeroValue | src/index.rs:35 | a leading zero does not change the value |
| Strings.ZerosValue | src/index.rs:35 | any number of leading zeros does not change the value |
| Strings.ZeroPaddedValue | src/index.rs:35 | the padded form is non-empty and has the number as its value |
| Strings.ParseZeroPadded | src/index.rs:17-20 | parsing the zero-padded form of a `u32` gives it back |
| Maps.CollectKeys | src/mon.rs:424-433 | a key is in a map built by inserts exactly when some insert had it |
| Maps.CollectLastWins | src/mon.rs:428-429 | a key maps to the value of the last insert with that key |
| Maps.CollectSnoc | src/mon.rs:429 | one more insert updates one key |
| Results.FlattenSnoc | src/mon.rs:268-271 | one more step of a `?` loop: an earlier error stays, otherwise the step's error or items follow |
| Results.FlattenAppend | src/mon.rs:268-271 | running two lists of steps one after the other |
| Results.FlattenStep | src/mon.rs:205-251 | step `i` of the loop in terms of the steps before it |
| Results.FlattenErr | src/mon.rs:268-271 | the loop fails exactly when some step fails, with the error of the first failing step |
| Results.FlattenStepErr | src/mon.rs:268-271 | a failing step after successful ones ends the loop with its error |
| Results.FlattenPrefixErr | src/mon.rs:268-271 | once a prefix has failed, later steps change nothing |
| Results.FlattenOk | src/mon.rs:268-271 | in a successful loop every step succeeded, and every item comes from some step |
| Dom.FirstElChild | src/mon.rs:415-418 | `first_el_child` returns a child element with that name, and none exactly when no child is one |
| Dom.FirstNamed | src/mon.rs:415-418 | the element found is the first child with that name |
| Dom.ElementChildren | src/mon.rs:420-422 | `children().filter(is_element)` keeps only element children |
| Dom.Elements | src/mon.rs:420-422 | filtering keeps every element and nothing else |
| Dom.SelectFirst | src/mon.rs:53 | what `select_first` finds matches the selector |
| Dom.SelectMatches | src/mon.rs:353 | everything `select` finds matches the selector |
| Dom.SelectAllMatches | src/mon.rs:359 | everything found in a list of trees matches the selector |
| Dom.FirstWithParentAgrees | src/mon.rs:213-223 | the parent search finds the same image as `select_first`, together with a node that has it as a child |
| Dom.FirstWithParentInAgrees | src/mon.rs:223 | the same, over a list of children |
| Dom.SelectAllHtml | src/xhtml.rs:45-53 | what is selected in an HTML subtree is HTML |
| Dom.SelectAllAllHtml | src/xhtml.rs:45-53 | the same over a list of trees |
| Dom.SelectFirstHtml | src/xhtml.rs:45-53 | what `select_first` finds in an HTML subtree is HTML |
| Dom.ChildrenHtml | src/xhtml.rs:45-53 | the children of an HTML node are HTML |
| Dom.RemoveAttr | src/mon.rs:375 | removing an attribute never lengthens the list |
| Dom.InsertAttr | src/mon.rs:379 | inserting replaces an attribute in place or appends one |
| Dom.RemoveAttrLookup | src/mon.rs:375 | after `remove` the attribute is gone and every other keeps its value |
| Dom.InsertAttrLookup | src/mon.rs:379 | after `insert` the attribute has the new value and every other keeps its value |
| Dom.OtherAttrsKept | src/mon.rs:397-403 | `remove` and `insert` keep every other attribute's value |
| Dom.HtmlAttrsUpdate | src/xhtml.rs:51-53 | removing or inserting an attribute keeps the attributes serializable |
| Urls.PathOf | src/mon.rs:477 | the path of a URL with segments starts with `/` |
| Xhtml.EscapeAppend | src/xhtml.rs:11-28 | escaping works character by character, so it distributes over concatenation |
| Xhtml.EscapeFixedPoint | src/xhtml.rs:23 | a string without characters the mode rewrites is its own escape |
| Xhtml.EscapeCharTable | src/xhtml.rs:18-23 | `&` is `&amp;` in both modes; `"` is `&quot;` in attribute mode only; `<`, `>` are `&lt;`, `&gt;` in text mode only; other characters are kept |
| Xhtml.AttrEscapeHasNoQuote | src/xhtml.rs:11-28 | attribute-mode output holds no `"` |
| Xhtml.TextEscapeHasNoAngle | src/xhtml.rs:11-28 | text-mode output holds no `<` or `>` |
| Xhtml.UnescapeEscape | src/xhtml.rs:11-28 | decoding the entities inverts escaping, in both modes |
| Xhtml.UnescapeAmp | src/xhtml.rs:19 | `&amp;` decodes to `&` |
| Xhtml.UnescapeQuot | src/xhtml.rs:20 | `&quot;` decodes to `"` |
| Xhtml.UnescapeAngles | src/xhtml.rs:21-22 | `&lt;` decodes to `<` and `&gt;` to `>` |
| Xhtml.UnescapeOther | src/xhtml.rs:23 | any other character decodes to itself |
| Xhtml.EscapeInjective | src/xhtml.rs:11-28 | different strings never escape to the same text |
| Xhtml.EscapeStep | src/xhtml.rs:17-25 | one more character of the loop appends its escape |
| Xhtml.AttrsMarkupSnoc | src/xhtml.rs:50-58 | one more attribute appends ` name="value"` |
| Xhtml.MarkupAllCons | src/xhtml.rs:85-88 | a list of nodes serializes as the first node, then the rest |
| Xhtml.XhtmlSerializer.constructor | src/xhtml.rs:86 | a new serializer has empty output |
| Xhtml.XhtmlSerializer.WriteEscaped | src/xhtml.rs:31-33 | appends the escape of the text in the given mode |
| Xhtml.XhtmlSerializer.WriteAttr | src/xhtml.rs:55-57 | appends ` name="`, the value escaped in attribute mode, and `"` |
| Xhtml.XhtmlSerializer.StartElem | src/xhtml.rs:37-62 | appends `<name`, each attribute in order and `>`; a namespace other than HTML is excluded, as the code panics on it |
| Xhtml.XhtmlSerializer.EndElem | src/xhtml.rs:64-66 | appends `</name>` |
| Xhtml.XhtmlSerializer.WriteText | src/xhtml.rs:68-70 | appends the text escaped in text mode |
| Xhtml.XhtmlSerializer.WriteComment | src/xhtml.rs:72-74 | appends `<!--text-->` unchanged |
| Xhtml.XhtmlSerializer.WriteProcessingInstruction | src/xhtml.rs:80-82 | appends `<?target data>` unchanged |
| Xhtml.XhtmlSerializer.Serialize | src/xhtml.rs:85-88 | the traversal appends the markup of the node itself and everything below it, with every element explicitly closed |
| Xhtml.OuterXhtml | src/mon.rs:435-439 | `outer_xhtml` is the markup of the node |
| Xhtml.InnerXhtml | src/mon.rs:441-447 | `inner_xhtml` is the markup of the children, one after another |
| Style.Declaration | src/mon.rs:427-429 | a declaration exists exactly when the entry holds `:`; it is the trimmed entry cut at its first `:`, with both halves trimmed again |
| Style.ParseSimpleStyleAttr | src/mon.rs:424-433 | the insert loop builds the map of the entries' declarations |
| Style.StyleKeys | src/mon.rs:424-433 | a key is in the style map exactly when some entry declares it |
| Style.StyleLastWins | src/mon.rs:428-429 | a later duplicate key overwrites an earlier one |
| Style.InfoBoxStyle | src/mon.rs:56-61 | the info-box style keeps exactly the keys `background`, `border`, `padding` and `text-align`, with their values |
| Image.Reverse | src/image.rs:40 | `parts.reverse()` puts element `i` at position `n - 1 - i` |
| Image.SumLengthsReverse | src/image.rs:40 | reversing keeps the total length of the pieces |
| Image.ImageIdExt | src/image.rs:30-42 | it is an error exactly when the file name has no `.`; the extension is what follows the last `.` and holds none |
| Image.ImageIdShape | src/image.rs:39-41 | the id is as long as the name part, is empty only when that part is, and has one piece more than the name has `/`s |
| Image.ImageIdOf | src/image.rs:36-41 | the id is the name's `/`-pieces reversed and joined by `-`, and the extension is the text after the last `.` |
| Image.ImageIdExample | src/image.rs:30-42 | `/media/upload/a/ab/File.png` gives `("File-ab-a", "png")` |
| Image.ExampleFileName | src/image.rs:31-34 | the example path loses `/media/upload` and then the leading `/` |
| Image.ExamplePath | src/image.rs:31-32 | the example URL's path is `/media/upload/a/ab/File.png` |
| Image.ExampleTrimUpload | src/image.rs:33 | trimming `/media/upload` from the example path |
| Image.ExampleTrimSlash | src/image.rs:34 | trimming leading `/` from the example path |
| Image.ExampleSplit | src/image.rs:39 | the example name splits into `a`, `ab`, `File` |
| Index.FormatDexId | src/index.rs:33-37 | `Display` is `#` and at least four digits, as many as the number needs |
| Index.ParseFormat | src/index.rs:14-37 | parsing the text form of any number gives it back |
| Index.FormatInjective | src/index.rs:33-37 | different numbers have different text forms |
| Index.ParseWithOrWithoutHash | src/index.rs:17-20 | the `#` is optional and leading zeros do not matter |
| Index.ParseRejects | src/index.rs:17-20 | `##7`, `-7`, the empty string and `#` do not parse: only one `#` is stripped and only `+` is accepted as a sign |
| Index.FormatExamples | src/index.rs:33-37 | 7 gives `#0007` and 12345 gives `#12345` |
| Index.ParseExamples | src/index.rs:17-20 | `#0007` and `7` both give 7 |
| Index.LeastIdExists | src/index.rs:11-12 | every non-empty set of numbers has a least element |
| Index.SortedIds | src/index.rs:41 | the `BTreeMap<DexId, _>` iteration has one number per key |
| Index.SortedIdsSpec | src/index.rs:11-12 | the numbers come strictly ascending and are exactly the keys |
| Index.SortedIdsMembers | src/index.rs:41 | the iterated numbers are exactly the keys |
| Index.ReadRowStep | src/index.rs:55-72 | a row is skipped exactly when it has no `td` or its first `td` is not a number; a numbered row without a `mon)` link, without `href` or with a link that does not join fails with the message naming its number; otherwise it is an entry with that number and the joined link as page |
| Index.ReadIndex | src/index.rs:44-76 | the insert loop over every `tr` in document order builds the index of the rows' outcomes; on failure the error is the message of the first failing row |
| Index.CollectFails | src/index.rs:64-70 | the loop fails exactly when some row fails, with the message of the first such row |
| Index.CollectKeys | src/index.rs:72 | a number is in the index exactly when some row has an entry for it |
| Index.CollectLastWins | src/index.rs:72 | a later row with the same number overwrites an earlier one |
| Index.CollectSnoc | src/index.rs:72 | one more row: skipped, fails, or inserts its page |
| Index.LoopStep | src/index.rs:51-73 | one turn of the row loop |
| Index.FailEndsLoop | src/index.rs:64-70 | a failing row after rows that all succeed fails the whole loop with that row's message |
| Index.CollectFirstFail | src/index.rs:64-70 | the first failing outcome decides the error of the whole loop |
| Index.CollectSkip | src/index.rs:57-62 | a skipped row changes nothing |
| MonLinks.Candidate | src/mon.rs:453-456 | a `srcset` piece gives a candidate exactly when it holds a space |
| MonLinks.CandidateShape | src/mon.rs:454-455 | the source is what comes before the last space, and the descriptor is what follows it, trimmed |
| MonLinks.SrcSetKeys | src/mon.rs:450-457 | a descriptor is in the `srcset` map exactly when some piece with a space carries it |
| MonLinks.SrcSetLastWins | src/mon.rs:450-457 | the last piece with a descriptor wins |
| MonLinks.CandidatesLastWins | src/mon.rs:450-457 | the same, over the list of pieces |
| MonLinks.Sources | src/mon.rs:458-460 | the map always has `1x` |
| MonLinks.BestSourceChoice | src/mon.rs:458-465 | `2x`, else `1.5x`, else `1x`; `src` (or the empty string) only when the `srcset` has none of them |
| MonLinks.HighestQualitySrc | src/mon.rs:449-474 | none exactly when the chosen source does not join; without `find_thumb_origin` it is the joined URL; with it, the thumbnail origin when there is one, else the joined URL |
| MonLinks.ThumbPathContains | src/mon.rs:477 | a path starting `media/upload/thumb/x` contains `/thumb/` |
| MonLinks.ThumbOriginIff | src/mon.rs:476-499 | an origin exists exactly for the archives domain with segments `media`, `upload`, `thumb` and three more; it changes only the path |
| MonLinks.ThumbOriginPath | src/mon.rs:495-497 | the origin's path is `/media/upload/<a>/<b>/<file>` |
| MonLinks.OriginPath | src/mon.rs:495 | the path of the five new segments, written out |
| MonLinks.PageId | src/mon.rs:369-373 | the index search finds the least number whose page is the URL, and none exactly when no page is |
| MonLinks.FindPageLeast | src/mon.rs:369-373 | a search over the numbers in ascending order finds the least number with that page |
| MonLinks.FindPage | src/mon.rs:369-373 | the search finds the first number in the list with that page, or none when no number has it |
| MonLinks.RemoveRefsComplete | src/mon.rs:352-357 | no `sup.reference` is left below the root |
| MonLinks.RemoveRefsAllComplete | src/mon.rs:352-357 | the same over a list of trees |
| MonLinks.RemoveRefsNone | src/mon.rs:352-357 | a tree without a `sup.reference` below its root is unchanged |
| MonLinks.RemoveRefsAllNone | src/mon.rs:352-357 | a list of trees without a `sup.reference` is unchanged |
| MonLinks.RemoveRefsIdempotent | src/mon.rs:352-357 | removing references twice is the same as once |
| MonLinks.RemoveRefsAllAppend | src/mon.rs:352-357 | removal works node by node: a reference is dropped, any other node is kept in place with its references removed |
| MonLinks.RemoveRefsHtml | src/mon.rs:352-357 | removing references keeps the tree serializable |
| MonLinks.RemoveRefsAllHtml | src/mon.rs:352-357 | the same over a list of trees |
| MonLinks.DexLink | src/mon.rs:368-377 | a link points into the dictionary exactly when it starts with `/wiki/`, ends with `_(Pok%C3%A9mon)` and its joined URL is a page in the index |
| MonLinks.FixLink | src/mon.rs:359-382 | an `href` that does not join is an error; otherwise `href` becomes the dictionary link or the joined URL, `title` is dropped exactly for a dictionary link, and all else is kept |
| MonLinks.FixLinksInAll | src/mon.rs:359-382 | fixing links keeps one node per node |
| MonLinks.FixImage | src/mon.rs:384-405 | fails exactly when there is no source or the cache fails; otherwise removes `srcset`, sets `src` to `images/` and the encoded cache name, removes `height` exactly when `width` is present, and keeps all else |
| MonLinks.FixImagesInAll | src/mon.rs:384-405 | fixing images keeps one node per node |
| MonLinks.FixImagesInLocal | src/mon.rs:384-405 | after fixing, every image of the tree is local |
| MonLinks.FixImagesInAllLocal | src/mon.rs:384-405 | the same over a list of trees |
| MonLinks.FixLinkHtml | src/mon.rs:375-379 | fixing one link keeps the node serializable |
| MonLinks.FixLinksInHtml | src/mon.rs:359-382 | fixing the links of a tree keeps it serializable |
| MonLinks.FixLinksInAllHtml | src/mon.rs:359-382 | the same over a list of trees |
| MonLinks.FixImageHtml | src/mon.rs:397-403 | fixing one image keeps the node serializable |
| MonLinks.FixImagesInHtml | src/mon.rs:384-405 | fixing the images of a tree keeps it serializable |
| MonLinks.FixImagesInAllHtml | src/mon.rs:384-405 | the same over a list of trees |
| MonLinks.FixLinksResult | src/mon.rs:344-408 | `fix_links` keeps the tree serializable and leaves every image local, without `srcset` |
| MonInfo.PartitionInfoRows | src/mon.rs:63-86 | the first row is the header, the others are partitioned into top and extra boxes, and no rows means no header |
| MonInfo.PartitionSplits | src/mon.rs:76-83 | top followed by extra gives the rows in order; no top row starts the extra boxes, and the first extra row does |
| MonInfo.PartitionUnique | src/mon.rs:76-83 | the partition is the only split with those properties |
| MonInfo.Categories | src/mon.rs:131-149 | the categories loop gives the fragments of the category item's children |
| MonInfo.FragmentCount | src/mon.rs:132-146 | one fragment per `<br>`, and one more when the first node is not a `<br>` |
| MonInfo.FragmentsConcat | src/mon.rs:140-145 | the fragments put together are the markup of every node that is not a `<br>`, in order |
| MonInfo.ConcatAddFragment | src/mon.rs:140-145 | a node that is not a `<br>` appends its markup to the current fragment |
| MonInfo.FragmentsSnocBr | src/mon.rs:133-138 | a `<br>` starts a new, empty fragment |
| MonInfo.TrailingBreaks | src/mon.rs:147-149 | one trailing empty fragment is dropped: two trailing `<br>`s still leave one empty fragment |
| MonGallery.CellImageAgrees | src/mon.rs:213-223 | the image of a cell is the one `select_first("img")` finds, with its parent |
| MonGallery.ReadCell | src/mon.rs:205-251 | a hidden cell gives nothing; a visible cell gives at most one image, with the row's `flex` and a local `src`; a cell without an image fails exactly when the row text lacks `Archives` |
| MonGallery.ReadCellImage | src/mon.rs:213-247 | an image cell fails exactly when its source, cached name, link or width is missing; otherwise its image has the cell's link, alt, width, caption and local `src` |
| MonGallery.ReadCellStep | src/mon.rs:205-251 | the body of the cells loop for one cell |
| MonGallery.ReadGallery | src/mon.rs:183-254 | the rows loop gives the gallery |
| MonGallery.ReadRowImages | src/mon.rs:185-252 | a hidden row gives nothing; otherwise the cells loop with the row's `flex` |
| MonGallery.RowImagesFlex | src/mon.rs:194-203 | every image of a row carries the row's `flex` and a local `src` |
| MonGallery.GalleryFlex | src/mon.rs:185-252 | every image comes from a visible row, carries its `flex` (more than one visible cell) and has a local `src` |
| MonGallery.UnexpectedCell | src/mon.rs:248-250 | a visible cell without an image, in a visible row without `Archives`, fails the gallery |
| MonBody.FixResultsAppend | src/mon.rs:311-312 | the results of two lists one after the other |
| MonBody.FixAllSnoc | src/mon.rs:311-312 | one more node fixed |
| MonBody.FixAllAppend | src/mon.rs:311-312 | fixing two lists one after the other |
| MonBody.Step | src/mon.rs:291-318 | the counters, the body flag and the routed lists after one more node |
| MonBody.BodySplitRouted | src/mon.rs:311-317 | the split fails exactly when fixing the routed nodes in order fails, with that error; otherwise summary then body are the fixed routed nodes |
| MonBody.SplitBody | src/mon.rs:285-318 | the loop over the children of `.mw-parser-output` gives the summary and body of the split, or the first fix error |
| MonBody.CountH2Mono | src/mon.rs:305-307 | the heading count never decreases |
| MonBody.RoutedStops | src/mon.rs:308-310 | the loop stops at the `<h2>` that exceeds the maximum, which is not routed and nothing after it is |
| MonBody.SummaryThenBody | src/mon.rs:313-317 | the routed nodes are the summary then the body, and body nodes exist only after a table of contents |
| MonBody.NoTocAllSummary | src/mon.rs:294-297 | without a table of contents everything routed is summary |
| MonBody.TocSwitch | src/mon.rs:294-297 | after the table of contents nothing more reaches the summary |
| MonBody.TocIn | src/mon.rs:294-297 | a table of contents anywhere sets the body flag |
| MonBody.CountSnoc | src/mon.rs:298-307 | one more node counts as a table or a heading, unless it is the table of contents |
| MonBody.H2Bound | src/mon.rs:305-310 | at most `max_body_sections` headings are routed |
| MonBody.TablesSkipped | src/mon.rs:298-303 | the first two tables are never routed |
| MonBody.RoutedPrefixErr | src/mon.rs:311-312 | a fix that fails on a routed node fails the loop with its error |
| MonBody.RoutedPrefix | src/mon.rs:291-318 | the routed nodes of a prefix come first |
| MonBody.FixAllLength | src/mon.rs:268-271 | fixing keeps one node per node |
| MonBody.FixAllHtml | src/mon.rs:268-271 | fixing keeps the nodes serializable |
| MonBody.SplitFrom | src/mon.rs:291-318 | the summary and the body are drawn from the children |
| Mon.HeaderBox | src/mon.rs:88-266 | every gallery image of the header points into the image directory |
| Mon.ReadNameBox | src/mon.rs:103-170 | the name box loop and look-ups give the names of `NameBox`, or the first of its error messages |
| Mon.ReadHeaderRows | src/mon.rs:89-94 | the rows of the header box, each serializable |
| Mon.ReadImageRows | src/mon.rs:178-181 | the rows of the image box, each serializable |
| Mon.ReadHeaderBox | src/mon.rs:88-266 | the header box reading (rows, names, number, gallery) gives `HeaderBox`, or its first error |
| Mon.ReadInfoBoxes | src/mon.rs:268-280 | the fix loop over the top and extra boxes, then their markup |
| Mon.ReadArticle | src/mon.rs:282-325 | the body loop, then the two folds |
| Mon.FixEach | src/mon.rs:268-271 | the loop calling `fix_links` on each node |
| Mon.OuterEach | src/mon.rs:273-280 | `.map(outer_xhtml).collect()` |
| Mon.OuterConcat | src/mon.rs:320-325 | the fold of `outer_xhtml` |
| Mon.PartitionHtml | src/mon.rs:70-84 | the info boxes of an HTML page are HTML |
| Mon.ReadInfoBoxStyle | src/mon.rs:56-61 | the info-box style restricted to the kept keys |
| Mon.ReadMon | src/mon.rs:42-342 | `read_mon` on the parsed page gives the entry of the page, or the first error |
| Mon.MonOfNoInfoBox | src/mon.rs:53-55 | a page without an info box fails with `could not find info box` |
| Mon.MonOfNoHeader | src/mon.rs:86 | an info box without an element row fails with `no header box` |
| Mon.MonOfEntry | src/mon.rs:42-342 | an entry keeps the page URL and only the allowed style keys; every row after the header is one top or extra box; every image is local |
| Mon.BoxesCount | src/mon.rs:273-280 | one markup string per top box and per extra box |
| Gen.RawKeeps | src/gen.rs:33-40 | markup holding none of `&nbsp;`, `</b> <i` and `</a> <a` is unchanged by `raw` |
| Gen.RawRewritesNbsp | src/gen.rs:33-36 | an `&nbsp;` between texts holding none of the three patterns becomes U+00A0 and nothing else changes |
| Gen.WriteLines | src/gen.rs:75-77 | the loop writing one line per item, each through `raw` |
| Gen.LinesOfContains | src/gen.rs:75-77 | every item gets its own line |
| Gen.ImageIdInjective | src/gen.rs:66 | different images have different anchor ids |
| Gen.CaptionAlias | src/gen.rs:56-62 | a caption alias always contains the name |
| Gen.AliasValues | src/gen.rs:63-67 | the set of alias names holds exactly the names written |
| Gen.WriteAliases | src/gen.rs:54-69 | the caption loop with its set of names seen writes the alias lines |
| Gen.AliasScanSeen | src/gen.rs:50-67 | the names seen are the two names and the aliases written |
| Gen.AliasesDistinct | src/gen.rs:63-65 | no alias repeats, and none equals the name or the Japanese name |
| Gen.AliasesFromCaptions | src/gen.rs:54-62 | every alias comes from the caption of the image it points at, in gallery order |
| Gen.AliasesComplete | src/gen.rs:54-69 | every caption's alias is the name, the Japanese name or an alias written |
| Gen.RunEnd | src/gen.rs:108 | the run end lies between its start and the end of the gallery |
| Gen.RunEndSpec | src/gen.rs:108-111 | the run is all flex images, and the image after it is not flex |
| Gen.RunMarkupStep | src/gen.rs:109 | one more image of the run |
| Gen.WriteRun | src/gen.rs:107-112 | the inner loop writes the run up to the first image that is not flex, in its wrapper |
| Gen.GroupsMarkupSnoc | src/gen.rs:103-117 | one more group appends its markup |
| Gen.WriteImages | src/gen.rs:103-117 | the outer loop writes the gallery's groups |
| Gen.GroupsTile | src/gen.rs:103-117 | every image is written exactly once, in order, under its own index |
| Gen.GroupsMaximal | src/gen.rs:106-115 | wrappers go exactly around the maximal runs of two or more flex images |
| Gen.DeclarationsContain | src/gen.rs:120-124 | every key of the list is written as `k:v;` |
| Gen.StyleDeclaresAll | src/gen.rs:120-124 | every property of the style is written as `k:v;` |
| Gen.GenerateMon | src/gen.rs:42-159 | the method, with its alias loop, its gallery loops and its `writeln!` lines, writes exactly the entry text that `Gen.AliasesDistinct`, `Gen.GroupsTile` and `Gen.StyleDeclaresAll` describe |
| Gen.AnchorsResolve | src/gen.rs:66 | every alias anchor names an image of the gallery |
| Gen.Ordered | src/gen.rs:16 | one entry per number |
| Gen.OrderedAt | src/gen.rs:16 | the `k`-th entry is that of the `k`-th number |
| Gen.EntryTexts | src/gen.rs:16-18 | one text per number |
| Gen.Rendered | src/gen.rs:16-18 | one text per entry |
| Gen.RenderedAt | src/gen.rs:16-18 | the `k`-th text renders the `k`-th entry |
| Gen.EntryTextAt | src/gen.rs:16-18 | the `k`-th text is the entry of the `k`-th number |
| Gen.EntriesSnoc | src/gen.rs:16-18 | one more entry appended |
| Gen.EntriesStep | src/gen.rs:16-18 | one more turn of the entries loop |
| Gen.WriteEntry | src/gen.rs:17 | one turn writes the `i`-th entry in number order and extends the output |
| Gen.WriteEntries | src/gen.rs:9-18 | the header, then every entry in number order |
| Gen.GenerateDictionary | src/gen.rs:8-23 | `generate_dictionary` never fails; it gives the header, every entry in ascending number order and the closing tag |
| Gen.EntriesPrefix | src/gen.rs:16-18 | every entry is written: the earlier entries come first and the `j`-th right after them |
| Gen.EntriesHeader | src/gen.rs:9-14 | the output starts with the XML header |
| Gen.DocumentFrame | src/gen.rs:8-23 | the document opens with the header and ends with `</d:dictionary>` |
| Gen.EntriesAscending | src/gen.rs:16 | a smaller number's entry is written before a larger one's |

## Left out

- `src/fetcher.rs` and the fetch in `read_mon` and `read_index` are not
  modelled. The page is taken as an already parsed tree.
- HTML parsing is not modelled. A page is a `Node` tree.
- The CSS selector engine is not modelled. Each selector the program uses is
  a fixed `Selector` constructor matched over inclusive descendants in
  pre-order.
- `text_contents` is the concatenation of the text nodes.
- `Url::join` (the basic URL parser of section 4.4 of the WHATWG URL
  Standard) and `urlencoding::encode` are function parameters, not
  definitions. `Url::parse` of the page URL is the parameter `env.base`.
- `ImageCache::get` is the parameter `env.cache`, because it reads and
  writes files and calls the network. `try_compress` is not modelled: it
  uses foreign image libraries and floating point.
- `src/main.rs` is not modelled. It handles the command line, runs in
  parallel with rayon and writes files.
- `write_doctype` is not modelled: fragments never reach it.
- String/UTF-8 conversions are not modelled. Strings are `seq<char>`.
- Error messages are kept as text, but they do not form a chain. Two
  library errors get a fixed message of their own: `invalid dex id` for a
  number that does not parse, and `invalid img link` for an image link that
  does not join.
- Index.ReadRowStep: a page link that does not join is a `Fail` outcome.
  The code panics there (`unwrap`).
- Index.ReadIndex: the `could not find <tr>` error is not modelled. A fixed
  selector always compiles, so `select` cannot fail.
- MonLinks.FixLinksResult: `fix_links` detaches nodes and changes attribute
  maps in place. The model builds a new tree instead. What is not captured
  is any aliasing between the rewritten nodes and the document.
- Dom.RemoveAttr, Dom.InsertAttr, Dom.RemoveAttrLookup, Xhtml.XhtmlSerializer.StartElem:
  attributes are an ordered list, and removing one keeps the order of the
  others. The attribute map of the HTML tree library is not part of this
  model; if it reorders entries on removal, the order in which attributes
  are serialized may differ.
- Xhtml.XhtmlSerializer.StartElem: a foreign element or attribute namespace
  is a panic in the code. It is a precondition here, kept through every
  operation by the `AllHtml` lemmas.
- Gen.GenerateMon: the method returns the text `generate_mon` appends. The
  code appends it to a `&mut String` and returns `Ok(())`. Writing to a
  `String` cannot fail, so the `with_context` error path is unreachable and
  is not modelled.
- Gen.EntriesAscending: the order is stated on the number sequence. The
  text at each position is given by `Gen.EntryTextAt`.
- Mon.MonOfEntry: the count of categories, names and images is not
  restated. Those come from `Mon.HeaderBox` and the `MonInfo` and
  `MonGallery` lemmas.
