/** Two loops of `read_mon` in `src/mon.rs` that take the info box apart:
    the split of its rows into the header, the "top" boxes and the "extra"
    boxes (which start at the gender ratio), and the split of the category
    line into fragments at each `<br>`. */
module MonInfo {
  import opened Wrappers
  import opened Strings
  import opened Dom
  import opened Xhtml

  // ---------------------------------------------------------------------------
  // Info-box rows

  /** `FIRST_EXTRA_INFO_BOX` */
  const FirstExtraInfoBox: string := "Gender ratio"

  /** The row that opens the extra boxes: its trimmed text starts with the gender ratio heading. */
  predicate StartsExtra(tr: Node)
  {
    StartsWith(Trim(TextContents(tr)), FirstExtraInfoBox)
  }

  /** The top boxes and the extra boxes after the loop has seen `rest`, the
      rows after the header: the first row that starts the extra boxes, and
      every row after it, go to the extra boxes. */
  function Partition(rest: seq<Node>): (seq<Node>, seq<Node>)
  {
    if rest == [] then ([], [])
    else
      var p := Partition(rest[..|rest| - 1]);
      var tr := rest[|rest| - 1];
      if p.1 != [] || StartsExtra(tr) then (p.0, p.1 + [tr]) else (p.0 + [tr], p.1)
  }

  /** The loop over the element rows of the info box: the first row is the
      header, the others are partitioned into top and extra boxes. */
  method PartitionInfoRows(rows: seq<Node>) returns (header: Option<Node>, top: seq<Node>, extra: seq<Node>)
    ensures header.None? <==> rows == []
    ensures header.None? ==> top == [] && extra == []
    ensures header.Some? ==> header.value == rows[0] && (top, extra) == Partition(rows[1..])
  {
    header := None;
    top := [];
    extra := [];
    var isExtra := false;
    for i := 0 to |rows|
      invariant header.None? <==> i == 0
      invariant i == 0 ==> top == [] && extra == []
      invariant i > 0 ==> header == Some(rows[0]) && (top, extra) == Partition(rows[1..i])
      invariant isExtra <==> extra != []
    {
      if header.None? {
        header := Some(rows[i]);
        continue;
      }
      var tr := rows[i];
      assert rows[1..i + 1][..i - 1] == rows[1..i] && rows[1..i + 1][i - 1] == tr;
      if StartsExtra(tr) {
        isExtra := true;
      }
      if isExtra {
        extra := extra + [tr];
      } else {
        top := top + [tr];
      }
    }
    if rows != [] {
      assert rows[1..|rows|] == rows[1..];
    }
  }

  /** The top boxes followed by the extra boxes are the rows in order; no top
      box starts the extra boxes, and the first extra box does. */
  lemma {:induction false} PartitionSplits(rest: seq<Node>)
    ensures Partition(rest).0 + Partition(rest).1 == rest
    ensures forall i :: 0 <= i < |Partition(rest).0| ==> !StartsExtra(Partition(rest).0[i])
    ensures Partition(rest).1 != [] ==> StartsExtra(Partition(rest).1[0])
  {
    if rest != [] {
      var init := rest[..|rest| - 1];
      PartitionSplits(init);
      var p := Partition(init);
      assert init + [rest[|rest| - 1]] == rest;
    }
  }

  /** The partition is determined: the top boxes are exactly the rows after
      the header up to the first that starts the extra boxes. */
  lemma PartitionUnique(rest: seq<Node>, top: seq<Node>, extra: seq<Node>, top': seq<Node>, extra': seq<Node>)
    requires top + extra == rest && top' + extra' == rest
    requires forall i :: 0 <= i < |top| ==> !StartsExtra(top[i])
    requires forall i :: 0 <= i < |top'| ==> !StartsExtra(top'[i])
    requires extra != [] ==> StartsExtra(extra[0])
    requires extra' != [] ==> StartsExtra(extra'[0])
    ensures top == top' && extra == extra'
  {
    if |top| < |top'| {
      FirstOfRest(rest, top, extra, top', extra');
      assert false;
    } else if |top'| < |top| {
      FirstOfRest(rest, top', extra', top, extra);
      assert false;
    }
    assert top == rest[..|top|] && top' == rest[..|top'|];
    assert extra == rest[|top|..] && extra' == rest[|top'|..];
  }

  lemma FirstOfRest(rest: seq<Node>, top: seq<Node>, extra: seq<Node>, top': seq<Node>, extra': seq<Node>)
    requires top + extra == rest && top' + extra' == rest && |top| < |top'|
    ensures extra != [] && extra[0] == top'[|top|]
  {
    assert rest[|top|] == top'[|top|];
  }

  // ---------------------------------------------------------------------------
  // Categories

  predicate IsBr(n: Node)
  {
    n.Element? && n.name == "br"
  }

  /** One step of the categories loop: a `<br>` opens a new, empty fragment;
      any other node's markup is appended to the last fragment, or opens the
      first one. */
  function AddFragment(fs: seq<string>, n: Node): seq<string>
  {
    if IsBr(n) then fs + [""]
    else if fs == [] then [Markup(n)]
    else fs[..|fs| - 1] + [fs[|fs| - 1] + Markup(n)]
  }

  /** The fragments after the loop over `ns`. */
  function Fragments(ns: seq<Node>): seq<string>
  {
    if ns == [] then [] else AddFragment(Fragments(ns[..|ns| - 1]), ns[|ns| - 1])
  }

  /** The final step: one trailing empty fragment is dropped. */
  function DropTrailingEmpty(fs: seq<string>): seq<string>
  {
    if fs != [] && fs[|fs| - 1] == "" then fs[..|fs| - 1] else fs
  }

  function CategoryFragments(ns: seq<Node>): seq<string>
  {
    DropTrailingEmpty(Fragments(ns))
  }

  /** The categories loop over the children of the category item. */
  method Categories(item: Node) returns (categories: seq<string>)
    requires AllHtml(item)
    ensures categories == CategoryFragments(ChildrenOf(item))
  {
    var ns := ChildrenOf(item);
    categories := [];
    for i := 0 to |ns|
      invariant categories == Fragments(ns[..i])
    {
      assert ns[..i + 1][..i] == ns[..i];
      var node := ns[i];
      if IsBr(node) {
        categories := categories + [""];
        continue;
      }
      assert node in ChildrenOf(item);
      var html := OuterXhtml(node);
      if categories != [] {
        categories := categories[..|categories| - 1] + [categories[|categories| - 1] + html];
      } else {
        categories := [html];
      }
    }
    assert ns[..|ns|] == ns;
    if categories != [] && categories[|categories| - 1] == "" {
      categories := categories[..|categories| - 1];
    }
  }

  function CountBr(ns: seq<Node>): nat
  {
    if ns == [] then 0 else CountBr(ns[..|ns| - 1]) + (if IsBr(ns[|ns| - 1]) then 1 else 0)
  }

  /** The nodes that are not `<br>`, in order. */
  function NonBr(ns: seq<Node>): seq<Node>
  {
    if ns == [] then [] else NonBr(ns[..|ns| - 1]) + (if IsBr(ns[|ns| - 1]) then [] else [ns[|ns| - 1]])
  }

  function Concat(fs: seq<string>): string
  {
    if fs == [] then [] else Concat(fs[..|fs| - 1]) + fs[|fs| - 1]
  }

  /** There is one fragment per `<br>`, and one more when the first node is not a `<br>`. */
  lemma {:induction false} FragmentCount(ns: seq<Node>)
    ensures |Fragments(ns)| == CountBr(ns) + (if ns != [] && !IsBr(ns[0]) then 1 else 0)
  {
    if ns != [] {
      var init := ns[..|ns| - 1];
      FragmentCount(init);
      if init != [] {
        assert init[0] == ns[0];
      }
    }
  }

  lemma ConcatSnoc(fs: seq<string>, s: string)
    ensures Concat(fs + [s]) == Concat(fs) + s
  {
    assert (fs + [s])[..|fs|] == fs;
  }

  /** No markup is lost or reordered: the fragments put together are the
      markup of every node that is not a `<br>`, in document order. */
  lemma {:induction false} FragmentsConcat(ns: seq<Node>)
    ensures Concat(Fragments(ns)) == MarkupAll(NonBr(ns))
  {
    if ns != [] {
      var init := ns[..|ns| - 1];
      var n := ns[|ns| - 1];
      FragmentsConcat(init);
      if IsBr(n) {
        ConcatSnoc(Fragments(init), "");
        assert NonBr(ns) == NonBr(init);
      } else {
        assert NonBr(ns) == NonBr(init) + [n];
        MarkupAllSnoc(NonBr(init), n);
        ConcatAddFragment(Fragments(init), n);
      }
    }
  }

  lemma MarkupAllSnoc(xs: seq<Node>, n: Node)
    ensures MarkupAll(xs + [n]) == MarkupAll(xs) + Markup(n)
  {
    assert (xs + [n])[..|xs|] == xs;
  }

  /** Appending a node that is not a `<br>` appends its markup. */
  lemma ConcatAddFragment(fs: seq<string>, n: Node)
    requires !IsBr(n)
    ensures Concat(AddFragment(fs, n)) == Concat(fs) + Markup(n)
  {
    if fs == [] {
      assert Concat([Markup(n)]) == Concat([]) + Markup(n);
    } else {
      var front := fs[..|fs| - 1];
      var last := fs[|fs| - 1];
      ConcatSnoc(front, last + Markup(n));
      ConcatSnoc(front, last);
      assert front + [last] == fs;
      AppendAssoc(Concat(front), last, Markup(n));
    }
  }

  lemma FragmentsSnocBr(ns: seq<Node>, br: Node)
    requires IsBr(br)
    ensures Fragments(ns + [br]) == Fragments(ns) + [""]
  {
    assert (ns + [br])[..|ns|] == ns;
  }

  /** Only one trailing empty fragment is dropped: a single trailing `<br>`
      leaves the fragments before it, two trailing `<br>`s still leave one
      empty fragment. */
  lemma TrailingBreaks(ns: seq<Node>, br1: Node, br2: Node)
    requires IsBr(br1) && IsBr(br2)
    ensures CategoryFragments(ns + [br1]) == Fragments(ns)
    ensures CategoryFragments(ns + [br1, br2]) == Fragments(ns) + [""]
  {
    FragmentsSnocBr(ns, br1);
    assert ns + [br1, br2] == (ns + [br1]) + [br2];
    FragmentsSnocBr(ns + [br1], br2);
    assert (Fragments(ns) + [""] + [""])[..|Fragments(ns)| + 1] == Fragments(ns) + [""];
  }
}
