/** `src/index.rs`: National Pokédex numbers (`DexId`), their text forms,
    and the map from numbers to page URLs read from the list page. */
module Index {
  import opened Wrappers
  import opened Strings
  import opened Dom
  import opened Urls

  /** `DexId(u32)`; equality and order are those of the number. */
  datatype DexId = DexId(n: u32)

  // ---------------------------------------------------------------------------
  // Text forms

  /** `DexId::from_str` (and `TryFrom<String>`, which calls it): one leading
      `#` is optional, the rest is a `u32`. */
  function ParseDexId(s: string): Option<DexId>
  {
    var digits := if |s| > 0 && s[0] == '#' then s[1..] else s;
    match ParseU32(digits)
    case Some(v) => Some(DexId(v))
    case None => None
  }

  /** `Display` (and `From<DexId> for String`, which uses it): `#` and the
      number padded with zeros to at least four digits. */
  function FormatDexId(d: DexId): (s: string)
    ensures |s| >= 5 && s[0] == '#' && AllDigits(s[1..])
    ensures |s| == 1 + (if |Decimal(d.n)| < 4 then 4 else |Decimal(d.n)|)
  {
    "#" + ZeroPadded(d.n, 4)
  }

  /** Reading back the text form gives the number back, for every `u32`. */
  lemma {:induction false} ParseFormat(d: DexId)
    ensures ParseDexId(FormatDexId(d)) == Some(d)
  {
    var s := FormatDexId(d);
    assert s[1..] == ZeroPadded(d.n, 4);
    ParseZeroPadded(d.n, 4);
  }

  /** Different numbers have different text forms. */
  lemma FormatInjective(a: DexId, b: DexId)
    requires FormatDexId(a) == FormatDexId(b)
    ensures a == b
  {
    ParseFormat(a);
    ParseFormat(b);
  }

  /** The `#` is optional and leading zeros do not matter: `#0007`, `0007` and `7` all read as 7. */
  lemma {:induction false} ParseWithOrWithoutHash(n: u32, w: nat)
    ensures ParseDexId(ZeroPadded(n, w)) == Some(DexId(n))
    ensures ParseDexId("#" + ZeroPadded(n, w)) == Some(DexId(n))
  {
    ParseZeroPadded(n, w);
    var s := ZeroPadded(n, w);
    assert ("#" + s)[1..] == s;
    assert s != [] ==> s[0] != '#';
  }

  /** Only one `#` is stripped, and a sign other than `+` is refused. */
  lemma ParseRejects()
    ensures ParseDexId("##7") == None
    ensures ParseDexId("-7") == None
    ensures ParseDexId("") == None
    ensures ParseDexId("#") == None
  {
    assert "##7"[1..] == "#7";
  }

  lemma FormatExamples()
    ensures FormatDexId(DexId(7)) == "#0007"
    ensures FormatDexId(DexId(12345)) == "#12345"
  {
    FormatSeven();
    FormatFiveDigits();
  }

  lemma ParseExamples()
    ensures ParseDexId("#0007") == Some(DexId(7)) && ParseDexId("7") == Some(DexId(7))
  {
    FormatSeven();
    ParseWithOrWithoutHash(7, 4);
    assert "#0007" == "#" + ZeroPadded(7, 4);
    ParseWithOrWithoutHash(7, 0);
    assert ZeroPadded(7, 0) == "7";
  }

  lemma FormatSeven()
    ensures ZeroPadded(7, 4) == "0007"
  {
    assert Decimal(7) == "7";
    assert Zeros(3) == "000";
  }

  lemma FormatFiveDigits()
    ensures ZeroPadded(12345, 4) == "12345"
  {
    assert Decimal(12) == Decimal(1) + "2";
    assert Decimal(123) == Decimal(12) + "3";
    assert Decimal(1234) == Decimal(123) + "4";
    assert Decimal(12345) == Decimal(1234) + "5";
    assert Decimal(12345) == "12345";
  }

  // ---------------------------------------------------------------------------
  // Ascending order of numbers

  /** `x` is the smallest number of `s`. */
  predicate IsLeastId(x: DexId, s: set<DexId>)
  {
    x in s && forall y :: y in s ==> x.n <= y.n
  }

  lemma {:induction false} LeastIdExists(s: set<DexId>)
    requires s != {}
    ensures exists x :: IsLeastId(x, s)
    decreases |s|
  {
    var z :| z in s;
    if s != {z} {
      LeastIdExists(s - {z});
      var m :| IsLeastId(m, s - {z});
      if z.n <= m.n {
        assert IsLeastId(z, s);
      } else {
        assert IsLeastId(m, s);
      }
    } else {
      assert IsLeastId(z, s);
    }
  }

  /** The numbers of `s` in ascending order: how a `BTreeMap<DexId, _>`
      iterates (see `SortedIdsSpec`). */
  function SortedIds(s: set<DexId>): (r: seq<DexId>)
    ensures |r| == |s|
    decreases |s|
  {
    if s == {} then []
    else
      LeastIdExists(s);
      var x :| IsLeastId(x, s);
      assert |s - {x}| == |s| - 1;
      [x] + SortedIds(s - {x})
  }

  /** The sorted numbers are strictly ascending and are exactly those of the set. */
  lemma {:induction false} SortedIdsSpec(s: set<DexId>)
    ensures forall i, j :: 0 <= i < j < |SortedIds(s)| ==> SortedIds(s)[i].n < SortedIds(s)[j].n
    ensures forall x :: x in SortedIds(s) <==> x in s
    decreases |s|
  {
    SortedIdsMembers(s);
    if s != {} {
      var r := SortedIds(s);
      var x := r[0];
      assert IsLeastId(x, s) && r == [x] + SortedIds(s - {x});
      var t := SortedIds(s - {x});
      SortedIdsSpec(s - {x});
      forall k | 0 <= k < |t|
        ensures x.n < t[k].n
      {
        assert t[k] in t;
        assert t[k] in s && t[k] != x;
      }
      ConsAscending(x, t);
    }
  }

  lemma ConsAscending(x: DexId, t: seq<DexId>)
    requires forall i, j :: 0 <= i < j < |t| ==> t[i].n < t[j].n
    requires forall k :: 0 <= k < |t| ==> x.n < t[k].n
    ensures forall i, j :: 0 <= i < j < |[x] + t| ==> ([x] + t)[i].n < ([x] + t)[j].n
  {
    var r := [x] + t;
    forall i, j | 0 <= i < j < |r|
      ensures r[i].n < r[j].n
    {
      assert r[j] == t[j - 1];
      if i > 0 {
        assert r[i] == t[i - 1];
      }
    }
  }

  lemma {:induction false} SortedIdsMembers(s: set<DexId>)
    ensures forall x :: x in SortedIds(s) <==> x in s
    decreases |s|
  {
    if s != {} {
      var r := SortedIds(s);
      var x := r[0];
      assert IsLeastId(x, s) && r == [x] + SortedIds(s - {x});
      SortedIdsMembers(s - {x});
    }
  }

  // ---------------------------------------------------------------------------
  // read_index

  /** The list page the index is read from, as `Url::parse` gives it. */
  const PokemonIndexUrl: Url := Url("https", Some(Domain("bulbapedia.bulbagarden.net")), None,
    ["wiki", "List_of_Pok%C3%A9mon_by_National_Pok%C3%A9dex_number"], None, None)

  /** `Index`: page URLs by number. */
  datatype Index = Index(pokemonPages: map<DexId, string>)

  /** What one `<tr>` of the list contributes. */
  datatype RowOutcome = Skip | Fail(message: string) | Entry(id: DexId, page: string)

  /** One turn of the row loop: a row without a `td`, or whose first `td`
      does not read as a number, is skipped; a numbered row needs a link
      whose `href` ends in `mon)`, whose target becomes the page. */
  function ReadRow(tr: Node, base: Url, join: Joiner): RowOutcome
  {
    match SelectFirst(tr, Tag("td"))
    case None => Skip
    case Some(td) =>
      match ParseDexId(Trim(TextContents(td)))
      case None => Skip
      case Some(id) =>
        match SelectFirst(tr, TagAttrEndsWith("a", "href", "mon)"))
        case None => Fail("missing link for entry " + FormatDexId(id))
        case Some(link) =>
          match GetAttr(link, "href")
          case None => Fail("missing href on link for " + FormatDexId(id))
          case Some(href) =>
            match join(base, href)
            case None => Fail("invalid link for entry " + FormatDexId(id))
            case Some(u) => Entry(id, Serialize(u))
  }

  /** The index built from the outcomes of the rows in order: the first
      failure ends the loop, and a later entry for a number replaces an
      earlier one. */
  function Collect(rows: seq<RowOutcome>): Result<map<DexId, string>>
  {
    if rows == [] then Ok(map[])
    else
      match Collect(rows[..|rows| - 1])
      case Err(e) => Err(e)
      case Ok(m) =>
        match rows[|rows| - 1]
        case Skip => Ok(m)
        case Fail(e) => Err(e)
        case Entry(id, page) => Ok(m[id := page])
  }

  function Outcomes(trs: seq<Node>, base: Url, join: Joiner): (r: seq<RowOutcome>)
    ensures |r| == |trs|
    ensures forall i :: 0 <= i < |trs| ==> r[i] == ReadRow(trs[i], base, join)
  {
    seq(|trs|, i requires 0 <= i < |trs| => ReadRow(trs[i], base, join))
  }

  /** The body of the row loop of `read_index`, for one `tr`: a row is
      skipped exactly when it has no `td` or its first `td` is not a number;
      a numbered row fails, naming its number, when it has no `mon)` link,
      when that link has no `href` or when the `href` does not join;
      otherwise the number's page is the joined `href`. */
  method ReadRowStep(tr: Node, base: Url, join: Joiner) returns (row: RowOutcome)
    ensures row == ReadRow(tr, base, join)
    ensures var td := SelectFirst(tr, Tag("td"));
      var id := if td.Some? then ParseDexId(Trim(TextContents(td.value))) else None;
      var link := SelectFirst(tr, TagAttrEndsWith("a", "href", "mon)"));
      var href := if link.Some? then GetAttr(link.value, "href") else None;
      && (row.Skip? <==> id.None?)
      && (id.Some? && link.None? ==> row == Fail("missing link for entry " + FormatDexId(id.value)))
      && (id.Some? && link.Some? && href.None? ==> row == Fail("missing href on link for " + FormatDexId(id.value)))
      && (id.Some? && href.Some? && join(base, href.value).None? ==>
            row == Fail("invalid link for entry " + FormatDexId(id.value)))
      && (row.Entry? <==> id.Some? && href.Some? && join(base, href.value).Some?)
      && (row.Entry? ==> row.id == id.value && row.page == Serialize(join(base, href.value).value))
  {
    var td := SelectFirst(tr, Tag("td"));
    if td.None? {
      return Skip;
    }
    var dexId := ParseDexId(Trim(TextContents(td.value)));
    if dexId.None? {
      return Skip;
    }
    var link := SelectFirst(tr, TagAttrEndsWith("a", "href", "mon)"));
    if link.None? {
      return Fail("missing link for entry " + FormatDexId(dexId.value));
    }
    var href := GetAttr(link.value, "href");
    if href.None? {
      return Fail("missing href on link for " + FormatDexId(dexId.value));
    }
    var url := join(base, href.value);
    if url.None? {
      return Fail("invalid link for entry " + FormatDexId(dexId.value));
    }
    return Entry(dexId.value, Serialize(url.value));
  }

  /** `read_index` on the parsed list page: every `tr` of the document, in order. */
  method ReadIndex(doc: Node, join: Joiner) returns (r: Result<Index>)
    ensures r.Ok? <==> Collect(Outcomes(Select(doc, Tag("tr")), PokemonIndexUrl, join)).Ok?
    ensures r.Ok? ==> r.value.pokemonPages == Collect(Outcomes(Select(doc, Tag("tr")), PokemonIndexUrl, join)).value
    ensures r.Err? ==> r.message == Collect(Outcomes(Select(doc, Tag("tr")), PokemonIndexUrl, join)).message
  {
    var base := PokemonIndexUrl;
    var trs := Select(doc, Tag("tr"));
    var pokemonPages: map<DexId, string> := map[];
    for i := 0 to |trs|
      invariant Collect(Outcomes(trs[..i], base, join)) == Ok(pokemonPages)
    {
      LoopStep(trs, i, base, join);
      var row := ReadRowStep(trs[i], base, join);
      match row
      case Skip =>
      case Fail(e) =>
        FailEndsLoop(trs, i, base, join);
        return Err(e);
      case Entry(id, page) =>
        pokemonPages := pokemonPages[id := page];
    }
    assert trs[..|trs|] == trs;
    return Ok(Index(pokemonPages));
  }

  // ---------------------------------------------------------------------------
  // Properties of the row loop

  /** The loop fails exactly when some row fails, and then with the message of the first such row. */
  lemma {:induction false} CollectFails(rows: seq<RowOutcome>)
    ensures Collect(rows).Err? <==> exists i :: 0 <= i < |rows| && rows[i].Fail?
    ensures Collect(rows).Err? ==> exists i :: (0 <= i < |rows| && rows[i].Fail?
      && Collect(rows).message == rows[i].message
      && forall j :: 0 <= j < i ==> !rows[j].Fail?)
  {
    if rows != [] {
      var init := rows[..|rows| - 1];
      CollectFails(init);
      assert forall i :: 0 <= i < |init| ==> init[i] == rows[i];
    }
  }

  /** A number is in the index exactly when some row has an entry for it. */
  lemma {:induction false} CollectKeys(rows: seq<RowOutcome>, id: DexId)
    requires Collect(rows).Ok?
    ensures id in Collect(rows).value <==> exists i :: 0 <= i < |rows| && rows[i].Entry? && rows[i].id == id
  {
    if rows != [] {
      var init := rows[..|rows| - 1];
      CollectKeys(init, id);
      assert forall i :: 0 <= i < |init| ==> init[i] == rows[i];
    }
  }

  /** The page of a number is that of its last entry: a later row overwrites an earlier one. */
  lemma {:induction false} CollectLastWins(rows: seq<RowOutcome>, i: nat)
    requires Collect(rows).Ok?
    requires i < |rows| && rows[i].Entry?
    requires forall j :: i < j < |rows| && rows[j].Entry? ==> rows[j].id != rows[i].id
    ensures rows[i].id in Collect(rows).value && Collect(rows).value[rows[i].id] == rows[i].page
  {
    var init := rows[..|rows| - 1];
    if i < |rows| - 1 {
      assert init[i] == rows[i];
      assert forall j :: i < j < |init| ==> init[j] == rows[j];
      assert Collect(init).Ok?;
      CollectLastWins(init, i);
    }
  }

  lemma CollectSnoc(rows: seq<RowOutcome>, row: RowOutcome)
    ensures Collect(rows + [row]) == match Collect(rows)
      case Err(e) => Err(e)
      case Ok(m) => (match row case Skip => Ok(m) case Fail(e) => Err(e) case Entry(id, page) => Ok(m[id := page]))
  {
    assert (rows + [row])[..|rows|] == rows;
  }

  lemma LoopStep(trs: seq<Node>, i: nat, base: Url, join: Joiner)
    requires i < |trs|
    ensures Collect(Outcomes(trs[..i + 1], base, join)) == match Collect(Outcomes(trs[..i], base, join))
      case Err(e) => Err(e)
      case Ok(m) => (match ReadRow(trs[i], base, join)
        case Skip => Ok(m) case Fail(e) => Err(e) case Entry(id, page) => Ok(m[id := page]))
  {
    assert Outcomes(trs[..i + 1], base, join) == Outcomes(trs[..i], base, join) + [ReadRow(trs[i], base, join)];
    CollectSnoc(Outcomes(trs[..i], base, join), ReadRow(trs[i], base, join));
  }

  /** A failing row fails the whole loop, and with its own message when
      the rows before it did not fail. */
  lemma FailEndsLoop(trs: seq<Node>, i: nat, base: Url, join: Joiner)
    requires i < |trs| && ReadRow(trs[i], base, join).Fail?
    ensures Collect(Outcomes(trs, base, join)).Err?
    ensures Collect(Outcomes(trs[..i], base, join)).Ok? ==>
      Collect(Outcomes(trs, base, join)) == Err(ReadRow(trs[i], base, join).message)
  {
    var rows := Outcomes(trs, base, join);
    CollectFails(rows);
    if Collect(Outcomes(trs[..i], base, join)).Ok? {
      assert Outcomes(trs[..i], base, join) == rows[..i];
      CollectFirstFail(rows, i);
    }
  }

  /** The first failing row decides the message of the loop. */
  lemma CollectFirstFail(rows: seq<RowOutcome>, i: nat)
    requires i < |rows| && rows[i].Fail? && Collect(rows[..i]).Ok?
    ensures Collect(rows) == Err(rows[i].message)
  {
    CollectFails(rows[..i]);
    CollectFails(rows);
    var j :| 0 <= j < |rows| && rows[j].Fail? && Collect(rows).message == rows[j].message
      && forall k :: 0 <= k < j ==> !rows[k].Fail?;
    assert forall k :: 0 <= k < i ==> !rows[..i][k].Fail?;
  }

  /** A skipped row changes nothing. */
  lemma CollectSkip(rows: seq<RowOutcome>, rest: seq<RowOutcome>)
    ensures Collect(rows + [Skip] + rest) == Collect(rows + rest)
    decreases |rest|
  {
    if rest == [] {
      assert (rows + [Skip] + rest)[..|rows|] == rows;
      assert rows + rest == rows;
    } else {
      var a := rows + [Skip] + rest;
      var b := rows + rest;
      assert a[..|a| - 1] == rows + [Skip] + rest[..|rest| - 1];
      assert b[..|b| - 1] == rows + rest[..|rest| - 1];
      CollectSkip(rows, rest[..|rest| - 1]);
    }
  }
}
