/** Inline `style` attributes as `src/mon.rs` reads them
    (`parse_simple_style_attr`): entries separated by `;`, each a key and a
    value separated by the first `:`, both trimmed, collected into a map in
    which a later entry for a key replaces an earlier one.  Also the filter
    that keeps only the info-box properties the dictionary reuses. */
module Style {
  import opened Wrappers
  import opened Strings
  import opened Maps

  /** One entry of a style attribute as a declaration: the entry is trimmed
      and cut at its first `:`, and both sides are trimmed; an entry without
      a `:` declares nothing. */
  function Declaration(entry: string): (d: Option<(string, string)>)
    ensures d.Some? <==> ':' in entry
    ensures d.Some? ==> exists k, v :: Trim(entry) == k + [':'] + v && ':' !in k && d.value == (Trim(k), Trim(v))
    ensures d.Some? ==> ':' !in d.value.0 && Trimmed(d.value.0) && Trimmed(d.value.1)
  {
    TrimKeeps(entry);
    match SplitOnce(Trim(entry), ':')
    case None => None
    case Some((k, v)) =>
      TrimKeeps(k);
      TrimIsTrimmed(k);
      TrimIsTrimmed(v);
      Some((Trim(k), Trim(v)))
  }

  /** The declarations of a list of entries, one for each entry. */
  function Declarations(entries: seq<string>): (ds: seq<Option<(string, string)>>)
    ensures |ds| == |entries|
    ensures forall i :: 0 <= i < |entries| ==> ds[i] == Declaration(entries[i])
  {
    seq(|entries|, i requires 0 <= i < |entries| => Declaration(entries[i]))
  }

  /** `parse_simple_style_attr(style)` as a value. */
  function ParseStyle(style: string): map<string, string>
  {
    Collect(Declarations(Split(style, ';')))
  }

  /** `parse_simple_style_attr`: the loop over the `;`-separated entries. */
  method ParseSimpleStyleAttr(style: string) returns (values: map<string, string>)
    ensures values == ParseStyle(style)
  {
    values := map[];
    var entries := Split(style, ';');
    ghost var ds := Declarations(entries);
    for i := 0 to |entries|
      invariant values == Collect(ds[..i])
    {
      CollectStep(ds, i);
      var entry := Trim(entries[i]);
      match SplitOnce(entry, ':')
      case Some((k, v)) =>
        values := values[Trim(k) := Trim(v)];
      case None =>
    }
    assert ds[..|entries|] == ds;
  }

  lemma CollectStep(ds: seq<Option<(string, string)>>, i: nat)
    requires i < |ds|
    ensures Collect(ds[..i + 1]) == match ds[i] case None => Collect(ds[..i]) case Some((k, v)) => Collect(ds[..i])[k := v]
  {
    assert ds[..i + 1] == ds[..i] + [ds[i]];
    CollectSnoc(ds[..i], ds[i]);
  }

  /** A key is in the parsed map exactly when some entry declares it; an
      entry without a `:` declares nothing. */
  lemma StyleKeys(style: string, k: string)
    ensures k in ParseStyle(style) <==>
      exists e :: e in Split(style, ';') && Declaration(e).Some? && Declaration(e).value.0 == k
  {
    var es := Split(style, ';');
    var ds := Declarations(es);
    CollectKeys(ds, k);
    if k in ParseStyle(style) {
      var i :| 0 <= i < |ds| && ds[i].Some? && ds[i].value.0 == k;
      assert es[i] in es;
    }
  }

  /** The value of a key is that of the last entry declaring it: a later
      duplicate overwrites an earlier one. */
  lemma StyleLastWins(style: string, i: nat, k: string, v: string)
    requires i < |Split(style, ';')| && Declaration(Split(style, ';')[i]) == Some((k, v))
    requires forall j :: i < j < |Split(style, ';')| && Declaration(Split(style, ';')[j]).Some? ==>
      Declaration(Split(style, ';')[j]).value.0 != k
    ensures k in ParseStyle(style) && ParseStyle(style)[k] == v
  {
    CollectLastWins(Declarations(Split(style, ';')), i);
  }

  /** The properties the info box keeps (`src/mon.rs`, the filter after parsing). */
  const InfoBoxKeys: set<string> := {"background", "border", "padding", "text-align"}

  /** The parsed info-box style restricted to `InfoBoxKeys`. */
  function InfoBoxStyle(m: map<string, string>): (r: map<string, string>)
    ensures forall k :: k in r <==> k in m && k in InfoBoxKeys
    ensures forall k :: k in r ==> r[k] == m[k]
  {
    map k | k in m && k in InfoBoxKeys :: m[k]
  }

  /** `style.get("display") == Some("none")`: the node is hidden. */
  predicate DisplayNone(m: map<string, string>)
  {
    "display" in m && m["display"] == "none"
  }
}
