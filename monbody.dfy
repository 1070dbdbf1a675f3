/** The last loop of `read_mon` in `src/mon.rs`: the children of the
    article's `.mw-parser-output` routed to the summary (before the table of
    contents) or to the body (after it).  The table of contents itself and
    the first two tables (the header and the info box) are dropped, and the
    loop stops at the `<h2>` that opens one section more than the
    configured maximum.  Every routed node has its links fixed first. */
module MonBody {
  import opened Wrappers
  import opened Dom
  import opened MonLinks
  import opened Results
  import Strings

  /** The table of contents: `id="toc"`. */
  predicate IsToc(n: Node)
  {
    GetAttr(n, "id") == Some("toc")
  }

  predicate IsTag(n: Node, tag: string)
  {
    n.Element? && n.name == tag
  }

  /** Whether a table of contents occurs among `ns`. */
  predicate HasToc(ns: seq<Node>)
  {
    ns != [] && (HasToc(ns[..|ns| - 1]) || IsToc(ns[|ns| - 1]))
  }

  /** `tables_seen` after `ns`: the tables other than the table of contents. */
  function CountTables(ns: seq<Node>): nat
  {
    if ns == [] then 0
    else CountTables(ns[..|ns| - 1]) + (if !IsToc(ns[|ns| - 1]) && IsTag(ns[|ns| - 1], "table") then 1 else 0)
  }

  /** `h2s_seen` after `ns`: the headings other than the table of contents. */
  function CountH2(ns: seq<Node>): nat
  {
    if ns == [] then 0
    else CountH2(ns[..|ns| - 1]) + (if !IsToc(ns[|ns| - 1]) && IsTag(ns[|ns| - 1], "h2") then 1 else 0)
  }

  /** Whether the last node of `ns` reaches the end of the loop body: it is
      not the table of contents, not one of the first two tables, and does
      not bring the headings above the maximum. */
  predicate RoutedLast(ns: seq<Node>, max: nat)
    requires ns != []
  {
    var n := ns[|ns| - 1];
    !IsToc(n) && !(IsTag(n, "table") && CountTables(ns) < 3) && CountH2(ns) <= max
  }

  /** The routed nodes of `ns`, in order. */
  function Routed(ns: seq<Node>, max: nat): seq<Node>
  {
    if ns == [] then [] else Routed(ns[..|ns| - 1], max) + (if RoutedLast(ns, max) then [ns[|ns| - 1]] else [])
  }

  /** The routed nodes before any table of contents. */
  function Summary(ns: seq<Node>, max: nat): seq<Node>
  {
    if ns == [] then []
    else
      var last := if RoutedLast(ns, max) && !HasToc(ns[..|ns| - 1]) then [ns[|ns| - 1]] else [];
      Summary(ns[..|ns| - 1], max) + last
  }

  /** The routed nodes after a table of contents. */
  function Body(ns: seq<Node>, max: nat): seq<Node>
  {
    if ns == [] then []
    else
      var last := if RoutedLast(ns, max) && HasToc(ns[..|ns| - 1]) then [ns[|ns| - 1]] else [];
      Body(ns[..|ns| - 1], max) + last
  }

  // ---------------------------------------------------------------------------
  // Fixing the routed nodes

  function FixOne(n: Node, env: Env, hq: bool): Result<seq<Node>>
  {
    match FixLinks(n, env, hq)
    case Err(e) => Err(e)
    case Ok(m) => Ok([m])
  }

  function FixResults(ns: seq<Node>, env: Env, hq: bool): (rs: seq<Result<seq<Node>>>)
    ensures |rs| == |ns|
    ensures forall i :: 0 <= i < |ns| ==> rs[i] == FixOne(ns[i], env, hq)
  {
    seq(|ns|, i requires 0 <= i < |ns| => FixOne(ns[i], env, hq))
  }

  /** `fix_links` on each node in turn, the first failure ending the loop. */
  function FixAll(ns: seq<Node>, env: Env, hq: bool): Result<seq<Node>>
  {
    Flatten(FixResults(ns, env, hq))
  }

  lemma FixResultsAppend(a: seq<Node>, b: seq<Node>, env: Env, hq: bool)
    ensures FixResults(a + b, env, hq) == FixResults(a, env, hq) + FixResults(b, env, hq)
  {
  }

  lemma FixAllSnoc(a: seq<Node>, n: Node, env: Env, hq: bool)
    ensures FixAll(a + [n], env, hq) ==
      match FixAll(a, env, hq)
      case Err(e) => Err(e)
      case Ok(xs) => (match FixLinks(n, env, hq) case Err(e) => Err(e) case Ok(m) => Ok(xs + [m]))
  {
    FixResultsAppend(a, [n], env, hq);
    FlattenSnoc(FixResults(a, env, hq), FixOne(n, env, hq));
  }

  lemma FixAllAppend(a: seq<Node>, b: seq<Node>, env: Env, hq: bool)
    ensures FixAll(a + b, env, hq) ==
      match FixAll(a, env, hq)
      case Err(e) => Err(e)
      case Ok(xs) => (match FixAll(b, env, hq) case Err(e) => Err(e) case Ok(ys) => Ok(xs + ys))
  {
    FixResultsAppend(a, b, env, hq);
    FlattenAppend(FixResults(a, env, hq), FixResults(b, env, hq));
  }

  // ---------------------------------------------------------------------------
  // One step of the loop

  lemma PrefixStep(ns: seq<Node>, i: nat)
    requires i < |ns|
    ensures ns[..i + 1][..i] == ns[..i] && ns[..i + 1][i] == ns[i] && |ns[..i + 1]| == i + 1
  {
  }

  /** The counters, the body flag and the routed lists after node `i`. */
  lemma Step(ns: seq<Node>, i: nat, max: nat)
    requires i < |ns|
    ensures HasToc(ns[..i + 1]) == (HasToc(ns[..i]) || IsToc(ns[i]))
    ensures CountTables(ns[..i + 1]) == CountTables(ns[..i]) + (if !IsToc(ns[i]) && IsTag(ns[i], "table") then 1 else 0)
    ensures CountH2(ns[..i + 1]) == CountH2(ns[..i]) + (if !IsToc(ns[i]) && IsTag(ns[i], "h2") then 1 else 0)
    ensures Routed(ns[..i + 1], max) == Routed(ns[..i], max) + (if RoutedLast(ns[..i + 1], max) then [ns[i]] else [])
    ensures Summary(ns[..i + 1], max) ==
      Summary(ns[..i], max) + (if RoutedLast(ns[..i + 1], max) && !HasToc(ns[..i]) then [ns[i]] else [])
    ensures Body(ns[..i + 1], max) ==
      Body(ns[..i], max) + (if RoutedLast(ns[..i + 1], max) && HasToc(ns[..i]) then [ns[i]] else [])
  {
    PrefixStep(ns, i);
  }

  /** The fixed summary nodes and the fixed body nodes, or the first failure
      among the summary nodes and then among the body nodes. */
  function BodySplit(ns: seq<Node>, max: nat, env: Env, hq: bool): Result<(seq<Node>, seq<Node>)>
  {
    var summary :- FixAll(Summary(ns, max), env, hq);
    var body :- FixAll(Body(ns, max), env, hq);
    Ok((summary, body))
  }

  /** The split fails exactly when fixing the routed nodes in document order
      fails, and with the same error. */
  lemma BodySplitRouted(ns: seq<Node>, max: nat, env: Env, hq: bool)
    ensures BodySplit(ns, max, env, hq).Ok? <==> FixAll(Routed(ns, max), env, hq).Ok?
    ensures BodySplit(ns, max, env, hq).Err? ==>
      BodySplit(ns, max, env, hq).message == FixAll(Routed(ns, max), env, hq).message
    ensures BodySplit(ns, max, env, hq).Ok? ==>
      FixAll(Routed(ns, max), env, hq).value == BodySplit(ns, max, env, hq).value.0 + BodySplit(ns, max, env, hq).value.1
  {
    SummaryThenBody(ns, max);
    FixAllAppend(Summary(ns, max), Body(ns, max), env, hq);
  }

  /** The loop over the children of `.mw-parser-output`. */
  method SplitBody(ns: seq<Node>, max: nat, env: Env, hq: bool) returns (r: Result<(seq<Node>, seq<Node>)>)
    ensures r.Ok? <==> FixAll(Routed(ns, max), env, hq).Ok?
    ensures r.Err? ==> r == Err(FixAll(Routed(ns, max), env, hq).message)
    ensures r == BodySplit(ns, max, env, hq)
  {
    var summary: seq<Node> := [];
    var body: seq<Node> := [];
    var tablesSeen := 0;
    var h2sSeen := 0;
    var isInBody := false;
    var i := 0;
    while i < |ns|
      invariant 0 <= i <= |ns|
      invariant tablesSeen == CountTables(ns[..i]) && h2sSeen == CountH2(ns[..i]) && isInBody == HasToc(ns[..i])
      invariant h2sSeen <= max
      invariant FixAll(Summary(ns[..i], max), env, hq) == Ok(summary)
      invariant FixAll(Body(ns[..i], max), env, hq) == Ok(body)
    {
      var node := ns[i];
      Step(ns, i, max);
      if IsToc(node) {
        assert !RoutedLast(ns[..i + 1], max);
        assert Summary(ns[..i + 1], max) == Summary(ns[..i], max);
        assert Body(ns[..i + 1], max) == Body(ns[..i], max);
        isInBody := true;
        i := i + 1;
        continue;
      }
      if IsTag(node, "table") {
        tablesSeen := tablesSeen + 1;
        if tablesSeen < 3 {
          assert !RoutedLast(ns[..i + 1], max);
          assert Summary(ns[..i + 1], max) == Summary(ns[..i], max);
          assert Body(ns[..i + 1], max) == Body(ns[..i], max);
          i := i + 1;
          continue;
        }
      }
      if IsTag(node, "h2") {
        h2sSeen := h2sSeen + 1;
      }
      if h2sSeen > max {
        RoutedStops(ns, i, max);
        break;
      }
      assert RoutedLast(ns[..i + 1], max);
      SummaryThenBody(ns[..i], max);
      FixAllAppend(Summary(ns[..i], max), Body(ns[..i], max), env, hq);
      FixAllSnoc(Routed(ns[..i], max), node, env, hq);
      match FixLinks(node, env, hq)
      case Err(e) =>
        RoutedPrefixErr(ns, i + 1, max, env, hq);
        BodySplitRouted(ns, max, env, hq);
        return Err(e);
      case Ok(fixed) =>
        if isInBody {
          FixAllSnoc(Body(ns[..i], max), node, env, hq);
          assert Summary(ns[..i + 1], max) == Summary(ns[..i], max);
          body := body + [fixed];
        } else {
          FixAllSnoc(Summary(ns[..i], max), node, env, hq);
          assert Summary(ns[..i + 1], max) == Summary(ns[..i], max) + [node];
          assert Body(ns[..i + 1], max) == Body(ns[..i], max);
          summary := summary + [fixed];
        }
      i := i + 1;
    }
    if i == |ns| {
      assert ns[..i] == ns;
    }
    SummaryThenBody(ns, max);
    FixAllAppend(Summary(ns, max), Body(ns, max), env, hq);
    r := Ok((summary, body));
  }

  // ---------------------------------------------------------------------------
  // Properties of the routing

  lemma {:induction false} CountH2Mono(ns: seq<Node>, k: nat)
    requires k <= |ns|
    ensures CountH2(ns[..k]) <= CountH2(ns)
    decreases |ns|
  {
    if k < |ns| {
      var init := ns[..|ns| - 1];
      assert init[..k] == ns[..k];
      CountH2Mono(init, k);
    } else {
      assert ns[..k] == ns;
    }
  }

  /** The loop stops at the heading that brings the count above the maximum:
      neither it nor any node after it is routed anywhere. */
  lemma {:induction false} RoutedStops(ns: seq<Node>, i: nat, max: nat)
    requires i < |ns| && CountH2(ns[..i + 1]) > max
    ensures Routed(ns, max) == Routed(ns[..i], max)
    ensures Summary(ns, max) == Summary(ns[..i], max)
    ensures Body(ns, max) == Body(ns[..i], max)
    decreases |ns|
  {
    var init := ns[..|ns| - 1];
    CountH2Mono(ns, i + 1);
    if i + 1 < |ns| {
      assert init[..i + 1] == ns[..i + 1];
      assert init[..i] == ns[..i];
      RoutedStops(init, i, max);
    } else {
      assert init == ns[..i];
    }
  }

  /** A body node only ever follows a table of contents. */
  lemma {:induction false} SummaryThenBody(ns: seq<Node>, max: nat)
    ensures Routed(ns, max) == Summary(ns, max) + Body(ns, max)
    ensures Body(ns, max) != [] ==> HasToc(ns)
  {
    if ns != [] {
      var init := ns[..|ns| - 1];
      var last := if RoutedLast(ns, max) then [ns[|ns| - 1]] else [];
      SummaryThenBody(init, max);
      assert Routed(ns, max) == Routed(init, max) + last;
      if HasToc(init) {
        assert Summary(ns, max) == Summary(init, max);
        assert Body(ns, max) == Body(init, max) + last;
        Strings.AppendAssoc(Summary(init, max), Body(init, max), last);
      } else {
        assert Body(init, max) == [] && Body(ns, max) == [];
        assert Summary(ns, max) == Summary(init, max) + last;
        assert Routed(init, max) == Summary(init, max);
      }
    }
  }

  /** Without a table of contents every routed node is summary. */
  lemma NoTocAllSummary(ns: seq<Node>, max: nat)
    requires !HasToc(ns)
    ensures Body(ns, max) == [] && Summary(ns, max) == Routed(ns, max)
  {
    SummaryThenBody(ns, max);
  }

  /** After the table of contents nothing more goes to the summary. */
  lemma {:induction false} TocSwitch(ns: seq<Node>, k: nat, max: nat)
    requires k < |ns| && IsToc(ns[k])
    ensures Summary(ns, max) == Summary(ns[..k], max)
    decreases |ns|
  {
    var init := ns[..|ns| - 1];
    if k + 1 < |ns| {
      assert init[..k] == ns[..k] && init[k] == ns[k];
      TocSwitch(init, k, max);
      TocIn(init, k);
    } else {
      assert init == ns[..k];
    }
  }

  lemma {:induction false} TocIn(ns: seq<Node>, k: nat)
    requires k < |ns| && IsToc(ns[k])
    ensures HasToc(ns)
    decreases |ns|
  {
    if k < |ns| - 1 {
      var init := ns[..|ns| - 1];
      assert init[k] == ns[k];
      TocIn(init, k);
    }
  }

  lemma CountSnoc(xs: seq<Node>, x: Node)
    ensures CountH2(xs + [x]) == CountH2(xs) + (if !IsToc(x) && IsTag(x, "h2") then 1 else 0)
    ensures CountTables(xs + [x]) == CountTables(xs) + (if !IsToc(x) && IsTag(x, "table") then 1 else 0)
  {
    assert (xs + [x])[..|xs|] == xs;
  }

  /** At most `max` sections reach the summary and the body together. */
  lemma {:induction false} H2Bound(ns: seq<Node>, max: nat)
    ensures CountH2(Routed(ns, max)) <= CountH2(ns)
    ensures CountH2(Routed(ns, max)) <= max
  {
    if ns != [] {
      var init := ns[..|ns| - 1];
      H2Bound(init, max);
      var x := ns[|ns| - 1];
      assert ns == init + [x];
      CountSnoc(init, x);
      if RoutedLast(ns, max) {
        assert Routed(ns, max) == Routed(init, max) + [x];
        CountSnoc(Routed(init, max), x);
      } else {
        assert Routed(ns, max) == Routed(init, max);
      }
    }
  }

  /** The first two tables never reach the output: either no table is
      routed, or at least two more tables were seen than were routed. */
  lemma {:induction false} TablesSkipped(ns: seq<Node>, max: nat)
    ensures CountTables(Routed(ns, max)) == 0 || CountTables(Routed(ns, max)) + 2 <= CountTables(ns)
  {
    if ns != [] {
      var init := ns[..|ns| - 1];
      TablesSkipped(init, max);
      var x := ns[|ns| - 1];
      assert ns == init + [x];
      CountSnoc(init, x);
      if RoutedLast(ns, max) {
        assert Routed(ns, max) == Routed(init, max) + [x];
        CountSnoc(Routed(init, max), x);
      } else {
        assert Routed(ns, max) == Routed(init, max);
      }
    }
  }

  /** A fix that fails on a routed node fails the loop, with its error. */
  lemma RoutedPrefixErr(ns: seq<Node>, k: nat, max: nat, env: Env, hq: bool)
    requires k <= |ns| && FixAll(Routed(ns[..k], max), env, hq).Err?
    ensures FixAll(Routed(ns, max), env, hq) == FixAll(Routed(ns[..k], max), env, hq)
  {
    var rest := RoutedPrefix(ns, k, max);
    FixAllAppend(Routed(ns[..k], max), rest, env, hq);
  }

  lemma {:induction false} RoutedPrefix(ns: seq<Node>, k: nat, max: nat) returns (rest: seq<Node>)
    requires k <= |ns|
    ensures Routed(ns, max) == Routed(ns[..k], max) + rest
    decreases |ns|
  {
    if k == |ns| {
      assert ns[..k] == ns;
      rest := [];
    } else {
      var init := ns[..|ns| - 1];
      assert init[..k] == ns[..k];
      var r := RoutedPrefix(init, k, max);
      rest := r + (if RoutedLast(ns, max) then [ns[|ns| - 1]] else []);
    }
  }

  /** Fixing keeps one node per node. */
  lemma {:induction false} FixAllLength(ns: seq<Node>, env: Env, hq: bool)
    requires FixAll(ns, env, hq).Ok?
    ensures |FixAll(ns, env, hq).value| == |ns|
  {
    if ns != [] {
      var init := ns[..|ns| - 1];
      assert ns == init + [ns[|ns| - 1]];
      FixAllSnoc(init, ns[|ns| - 1], env, hq);
      FixAllLength(init, env, hq);
    }
  }

  /** Fixing keeps every node in the HTML namespace, so each can still be serialized. */
  lemma {:induction false} FixAllHtml(ns: seq<Node>, env: Env, hq: bool)
    requires forall n :: n in ns ==> AllHtml(n)
    requires FixAll(ns, env, hq).Ok?
    ensures forall m :: m in FixAll(ns, env, hq).value ==> AllHtml(m)
  {
    if ns != [] {
      var init := ns[..|ns| - 1];
      var last := ns[|ns| - 1];
      assert ns == init + [last];
      FixAllSnoc(init, last, env, hq);
      FixAllHtml(init, env, hq);
      FixLinksResult(last, env, hq);
    }
  }

  /** The summary and the body are drawn from the nodes themselves. */
  lemma {:induction false} SplitFrom(ns: seq<Node>, max: nat)
    ensures forall x :: x in Summary(ns, max) ==> x in ns
    ensures forall x :: x in Body(ns, max) ==> x in ns
  {
    if ns != [] {
      var init := ns[..|ns| - 1];
      SplitFrom(init, max);
      assert forall x :: x in init ==> x in ns;
    }
  }
}
