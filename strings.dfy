/** The pieces of Rust's `str` and integer API that the dictionary generator
    relies on, stated over `seq<char>`: trimming, prefix and substring tests,
    `split`, `split_once`, `rsplit_once`, `join`, `replace`, the byte-wise order
    of `String`, and decimal parsing and printing of `u32`. */
module Strings {
  import opened Wrappers

  /** Rust's `u32`. */
  type u32 = x: int | 0 <= x < 0x1_0000_0000

  // ---------------------------------------------------------------------------
  // Trimming

  /** Unicode White_Space, the set `str::trim` removes. */
  predicate IsWhitespace(c: char)
  {
    ('\t' <= c <= '\r') || c == ' ' || c == '\U{85}' || c == '\U{A0}' || c == '\U{1680}'
    || ('\U{2000}' <= c <= '\U{200A}') || c == '\U{2028}' || c == '\U{2029}'
    || c == '\U{202F}' || c == '\U{205F}' || c == '\U{3000}'
  }

  /** `s.trim_start()`: the white space at the front removed. */
  function TrimStart(s: string): string
  {
    if s != [] && IsWhitespace(s[0]) then TrimStart(s[1..]) else s
  }

  /** `TrimStart` leaves the longest suffix that does not start with white space. */
  lemma {:induction false} TrimStartSpec(s: string)
    ensures |TrimStart(s)| <= |s| && TrimStart(s) == s[|s| - |TrimStart(s)|..]
    ensures TrimStart(s) == [] || !IsWhitespace(TrimStart(s)[0])
    ensures forall i :: 0 <= i < |s| - |TrimStart(s)| ==> IsWhitespace(s[i])
  {
    if s != [] && IsWhitespace(s[0]) {
      TrimStartSpec(s[1..]);
      assert forall i :: 1 <= i < |s| ==> s[i] == s[1..][i - 1];
    }
  }

  /** `s.trim_end()`: the white space at the back removed. */
  function TrimEnd(s: string): string
  {
    if s != [] && IsWhitespace(s[|s| - 1]) then TrimEnd(s[..|s| - 1]) else s
  }

  /** `TrimEnd` leaves the longest prefix that does not end with white space. */
  lemma {:induction false} TrimEndSpec(s: string)
    ensures |TrimEnd(s)| <= |s| && TrimEnd(s) == s[..|TrimEnd(s)|]
    ensures TrimEnd(s) == [] || !IsWhitespace(TrimEnd(s)[|TrimEnd(s)| - 1])
    ensures forall i :: |TrimEnd(s)| <= i < |s| ==> IsWhitespace(s[i])
  {
    if s != [] && IsWhitespace(s[|s| - 1]) {
      TrimEndSpec(s[..|s| - 1]);
    }
  }

  /** `s.trim()` */
  function Trim(s: string): string
  {
    TrimEnd(TrimStart(s))
  }

  /** `s` neither starts nor ends with white space. */
  predicate Trimmed(s: string)
  {
    s == [] || (!IsWhitespace(s[0]) && !IsWhitespace(s[|s| - 1]))
  }

  /** A trimmed string neither starts nor ends with white space, and trimming it again changes nothing. */
  lemma TrimIsTrimmed(s: string)
    ensures Trimmed(Trim(s))
    ensures Trim(Trim(s)) == Trim(s)
  {
    var u := TrimStart(s);
    var t := TrimEnd(u);
    TrimStartSpec(s);
    TrimEndSpec(u);
    TrimStartSpec(t);
    TrimEndSpec(t);
    if t != [] {
      assert t[0] == u[0];
    }
    assert TrimStart(t) == t;
  }

  // ---------------------------------------------------------------------------
  // Prefixes, suffixes, substrings

  predicate StartsWith(s: string, p: string)
  {
    |p| <= |s| && s[..|p|] == p
  }

  predicate EndsWith(s: string, p: string)
  {
    |p| <= |s| && s[|s| - |p|..] == p
  }

  /** `s.contains(p)` for a string pattern. */
  predicate Contains(s: string, p: string)
    decreases |s|
  {
    StartsWith(s, p) || (|s| > 0 && Contains(s[1..], p))
  }

  /** `p` occurs in `s` at position `i`. */
  predicate OccursAt(s: string, p: string, i: int)
  {
    0 <= i <= |s| - |p| && s[i..i + |p|] == p
  }

  /** `Contains` holds exactly when `p` occurs at some position of `s`. */
  lemma {:induction false} ContainsIff(s: string, p: string)
    ensures Contains(s, p) <==> exists i :: OccursAt(s, p, i)
    decreases |s|
  {
    if StartsWith(s, p) {
      assert OccursAt(s, p, 0);
    } else if |s| > 0 {
      ContainsIff(s[1..], p);
      if Contains(s[1..], p) {
        var i :| OccursAt(s[1..], p, i);
        assert s[i + 1..i + 1 + |p|] == s[1..][i..i + |p|];
        assert OccursAt(s, p, i + 1);
      } else {
        forall i | OccursAt(s, p, i)
          ensures false
        {
          if i != 0 {
            assert s[1..][i - 1..i - 1 + |p|] == s[i..i + |p|];
            assert OccursAt(s[1..], p, i - 1);
          }
        }
      }
    }
  }

  lemma ContainsAt(s: string, p: string, i: nat)
    requires OccursAt(s, p, i)
    ensures Contains(s, p)
  {
    ContainsIff(s, p);
  }

  /** What `a` contains, `a + b` contains. */
  lemma ContainsExtend(a: string, b: string, p: string)
    requires Contains(a, p)
    ensures Contains(a + b, p)
  {
    ContainsIff(a, p);
    var i :| OccursAt(a, p, i);
    assert (a + b)[i..i + |p|] == a[i..i + |p|];
    ContainsAt(a + b, p, i);
  }

  /** `a + b` contains `b`. */
  lemma ContainsSuffix(a: string, b: string)
    ensures Contains(a + b, b)
  {
    assert (a + b)[|a|..|a| + |b|] == b;
    ContainsAt(a + b, b, |a|);
  }

  /** What `b` contains, `a + b` contains. */
  lemma ContainsAppend(a: string, b: string, p: string)
    requires Contains(b, p)
    ensures Contains(a + b, p)
  {
    ContainsIff(b, p);
    var i :| OccursAt(b, p, i);
    assert (a + b)[|a| + i..|a| + i + |p|] == b[i..i + |p|];
    ContainsAt(a + b, p, |a| + i);
  }

  /** Every character of an occurrence's window belongs to the pattern. */
  lemma CharInWindow(s: string, p: string, i: int, k: int)
    requires OccursAt(s, p, i) && i <= k < i + |p|
    ensures s[k] in p
  {
    assert s[i..i + |p|][k - i] == s[k];
  }

  /** A pattern cannot occur across a character it does not hold: what
      `a + [c] + b` contains, `a` or `b` contains. */
  lemma NotContainsAround(a: string, c: char, b: string, p: string)
    requires c !in p && !Contains(a, p) && !Contains(b, p)
    ensures !Contains(a + [c] + b, p)
  {
    var s := a + [c] + b;
    if Contains(s, p) {
      ContainsIff(s, p);
      var i :| OccursAt(s, p, i);
      if i + |p| <= |a| {
        assert a[i..i + |p|] == s[i..i + |p|];
        ContainsAt(a, p, i);
      } else if i > |a| {
        assert b[i - |a| - 1..i - |a| - 1 + |p|] == s[i..i + |p|];
        ContainsAt(b, p, i - |a| - 1);
      } else {
        CharInWindow(s, p, i, |a|);
      }
    }
  }


  /** Concatenation regrouped, for proofs that build strings piece by piece. */
  lemma AppendAssoc<T>(a: seq<T>, b: seq<T>, c: seq<T>)
    ensures a + (b + c) == (a + b) + c
  {
  }

  // ---------------------------------------------------------------------------
  // Splitting and joining

  /** `parts.join(sep)` */
  function Join(parts: seq<string>, sep: string): string
  {
    if |parts| == 0 then [] else if |parts| == 1 then parts[0] else parts[0] + sep + Join(parts[1..], sep)
  }

  /** `s.split(c)`: the pieces between occurrences of `c`; there is always at
      least one (see `SplitSpec` for the others). */
  function Split(s: string, c: char): (r: seq<string>)
    ensures |r| >= 1
  {
    if s == [] then [[]]
    else
      var rest := Split(s[1..], c);
      if s[0] == c then [[]] + rest
      else [[s[0]] + rest[0]] + rest[1..]
  }

  /** No piece contains `c`, and joining the pieces with `c` gives `s` back. */
  lemma {:induction false} SplitSpec(s: string, c: char)
    ensures forall i :: 0 <= i < |Split(s, c)| ==> c !in Split(s, c)[i]
    ensures Join(Split(s, c), [c]) == s
  {
    if s != [] {
      SplitSpec(s[1..], c);
      var rest := Split(s[1..], c);
      if s[0] == c {
        assert ([[]] + rest)[1..] == rest;
      } else {
        var r := [[s[0]] + rest[0]] + rest[1..];
        assert r[1..] == rest[1..];
        assert [s[0]] + s[1..] == s;
        forall i | 0 <= i < |r|
          ensures c !in r[i]
        {
          if i == 0 {
            assert c !in rest[0];
          } else {
            assert r[i] == rest[i];
          }
        }
      }
    }
  }

  /** `Split` has exactly one piece more than `s` has occurrences of `c`. */
  lemma {:induction false} SplitCount(s: string, c: char)
    ensures |Split(s, c)| == multiset(s)[c] + 1
  {
    if s != [] {
      SplitCount(s[1..], c);
      assert s == [s[0]] + s[1..];
    }
  }

  /** The pieces of a split are lost only in their separators: their lengths
      add up with the separators to the length of the input. */
  lemma {:induction false} JoinLength(parts: seq<string>, sep: string)
    requires |parts| >= 1
    ensures |Join(parts, sep)| == SumLengths(parts) + (|parts| - 1) * |sep|
  {
    if |parts| > 1 {
      JoinLength(parts[1..], sep);
    }
  }

  function SumLengths(parts: seq<string>): nat
  {
    if parts == [] then 0 else |parts[0]| + SumLengths(parts[1..])
  }

  /** `s.split_once(c)`: the text before and after the first `c`. */
  function SplitOnce(s: string, c: char): (r: Option<(string, string)>)
    ensures r.None? <==> c !in s
    ensures r.Some? ==> s == r.value.0 + [c] + r.value.1 && c !in r.value.0
  {
    if s == [] then None
    else if s[0] == c then Some(([], s[1..]))
    else match SplitOnce(s[1..], c)
      case None => None
      case Some((a, b)) => Some(([s[0]] + a, b))
  }

  /** `s.rsplit_once(c)`: the text before and after the last `c`. */
  function RSplitOnce(s: string, c: char): (r: Option<(string, string)>)
    ensures r.None? <==> c !in s
    ensures r.Some? ==> s == r.value.0 + [c] + r.value.1 && c !in r.value.1
  {
    if s == [] then None
    else if s[|s| - 1] == c then Some((s[..|s| - 1], []))
    else match RSplitOnce(s[..|s| - 1], c)
      case None => None
      case Some((a, b)) => Some((a, b + [s[|s| - 1]]))
  }

  /** `SplitOnce` describes the unique way of cutting `s` at a `c` whose left part has no `c`. */
  lemma {:induction false} SplitOnceUnique(s: string, c: char, a: string, b: string)
    requires s == a + [c] + b && c !in a
    ensures SplitOnce(s, c) == Some((a, b))
  {
    if a == [] {
      assert s[0] == c && s[1..] == b;
    } else {
      assert s[0] == a[0] && s[0] != c;
      assert s[1..] == a[1..] + [c] + b;
      SplitOnceUnique(s[1..], c, a[1..], b);
      assert [s[0]] + a[1..] == a;
    }
  }

  /** `RSplitOnce` describes the unique way of cutting `s` at a `c` whose right part has no `c`. */
  lemma {:induction false} RSplitOnceUnique(s: string, c: char, a: string, b: string)
    requires s == a + [c] + b && c !in b
    ensures RSplitOnce(s, c) == Some((a, b))
    decreases |b|
  {
    if b == [] {
      assert s[|s| - 1] == c && s[..|s| - 1] == a;
    } else {
      var n := |s|;
      assert s[n - 1] == b[|b| - 1] && s[n - 1] != c;
      assert s[..n - 1] == a + [c] + b[..|b| - 1];
      RSplitOnceUnique(s[..n - 1], c, a, b[..|b| - 1]);
      assert b[..|b| - 1] + [b[|b| - 1]] == b;
    }
  }

  /** `s.replace(p, t)`: every non-overlapping occurrence of `p`, found left
      to right, is replaced by `t`. */
  function Replace(s: string, p: string, t: string): string
    requires p != []
    decreases |s|
  {
    if |s| < |p| then s
    else if s[..|p|] == p then t + Replace(s[|p|..], p, t)
    else [s[0]] + Replace(s[1..], p, t)
  }

  /** Replacing a pattern that does not occur changes nothing. */
  lemma {:induction false} ReplaceAbsent(s: string, p: string, t: string)
    requires p != [] && !Contains(s, p)
    ensures Replace(s, p, t) == s
    decreases |s|
  {
    if |s| >= |p| {
      assert s[1..] == s[1..];
      ReplaceAbsent(s[1..], p, t);
      assert [s[0]] + s[1..] == s;
    }
  }

  /** `replace` rewrites the first occurrence first: when `a` holds no `p`
      and the first character of `p` does not recur in `p`, the first
      occurrence in `a + p + b` is the one after `a`. */
  lemma {:induction false} ReplaceFirst(a: string, p: string, b: string, t: string)
    requires p != [] && p[0] !in p[1..] && !Contains(a, p)
    ensures Replace(a + p + b, p, t) == a + t + Replace(b, p, t)
    decreases |a|
  {
    var s := a + p + b;
    if a == [] {
      assert s[..|p|] == p && s[|p|..] == b;
    } else {
      assert s[..|p|] != p by {
        if |a| >= |p| {
          assert s[..|p|] == a[..|p|];
        } else {
          assert p[1..][|a| - 1] == p[|a|];
          assert s[..|p|][|a|] == p[0];
        }
      }
      assert Replace(s, p, t) == [s[0]] + Replace(s[1..], p, t);
      assert !Contains(a[1..], p);
      assert s[1..] == a[1..] + p + b;
      ReplaceFirst(a[1..], p, b, t);
      AppendAssoc([a[0]], a[1..] + t, Replace(b, p, t));
      assert [a[0]] + a[1..] == a;
    }
  }

  /** The string order of Rust (`Ord` for `String`): lexicographic on characters,
      a proper prefix first.  Comparing UTF-8 bytes, as Rust does, gives the
      same order as comparing scalar values. */
  predicate Less(a: string, b: string)
  {
    if a == [] then b != []
    else if b == [] then false
    else if a[0] != b[0] then a[0] < b[0]
    else Less(a[1..], b[1..])
  }

  lemma {:induction false} LessIrreflexive(a: string)
    ensures !Less(a, a)
  {
    if a != [] {
      LessIrreflexive(a[1..]);
    }
  }

  lemma {:induction false} LessTransitive(a: string, b: string, c: string)
    requires Less(a, b) && Less(b, c)
    ensures Less(a, c)
  {
    if a != [] && b != [] && c != [] && a[0] == b[0] && b[0] == c[0] {
      LessTransitive(a[1..], b[1..], c[1..]);
    }
  }

  lemma {:induction false} LessTotal(a: string, b: string)
    requires a != b
    ensures Less(a, b) || Less(b, a)
  {
    if a != [] && b != [] && a[0] == b[0] {
      assert a == [a[0]] + a[1..] && b == [b[0]] + b[1..];
      LessTotal(a[1..], b[1..]);
    }
  }

  lemma {:induction false} LessAsymmetric(a: string, b: string)
    requires Less(a, b)
    ensures !Less(b, a)
  {
    if a != [] && b != [] && a[0] == b[0] {
      LessAsymmetric(a[1..], b[1..]);
    }
  }

  /** `k` copies of `p`, one after another. */
  function Repeat(p: string, k: nat): string
  {
    if k == 0 then [] else p + Repeat(p, k - 1)
  }

  /** `s.trim_start_matches(p)`: every leading copy of `p` removed (see
      `TrimStartMatchesSpec`). */
  function TrimStartMatches(s: string, p: string): (r: string)
    requires p != []
    decreases |s|
  {
    if StartsWith(s, p) then TrimStartMatches(s[|p|..], p) else s
  }

  /** What is left does not start with `p`, and only copies of `p` were removed. */
  lemma {:induction false} TrimStartMatchesSpec(s: string, p: string)
    requires p != []
    ensures !StartsWith(TrimStartMatches(s, p), p)
    ensures exists k: nat :: s == Repeat(p, k) + TrimStartMatches(s, p)
    decreases |s|
  {
    var r := TrimStartMatches(s, p);
    if StartsWith(s, p) {
      TrimStartMatchesSpec(s[|p|..], p);
      var k: nat :| s[|p|..] == Repeat(p, k) + r;
      assert s == p + s[|p|..];
      AppendAssoc(p, Repeat(p, k), r);
      assert s == Repeat(p, k + 1) + r;
    } else {
      assert s == Repeat(p, 0) + s;
    }
  }

  /** A string without the separator is a single piece. */
  lemma {:induction false} SplitNone(s: string, c: char)
    requires c !in s
    ensures Split(s, c) == [s]
  {
    if s != [] {
      SplitNone(s[1..], c);
      assert [s[0]] + s[1..] == s;
    }
  }

  /** A split whose first piece is known: cutting at the first separator. */
  lemma SplitFirst(a: string, c: char, b: string)
    requires c !in a
    ensures Split(a + [c] + b, c) == [a] + Split(b, c)
    decreases |a|
  {
    if a == [] {
      assert a + [c] + b == [c] + b;
      assert ([c] + b)[1..] == b;
    } else {
      var s := a + [c] + b;
      assert s[0] == a[0] && s[1..] == a[1..] + [c] + b;
      SplitFirst(a[1..], c, b);
      assert [a[0]] + a[1..] == a;
    }
  }

  /** Trimming only ever removes characters, and only white space. */
  lemma TrimKeeps(s: string)
    ensures forall c :: c in Trim(s) ==> c in s
    ensures forall c :: c in s && !IsWhitespace(c) ==> c in Trim(s)
  {
    var u := TrimStart(s);
    TrimStartSpec(s);
    assert forall x :: x in u ==> x in s;
    var t := TrimEnd(u);
    TrimEndSpec(u);
    assert forall x :: x in t ==> x in u;
    var k := |s| - |u|;
    forall c | c in s && !IsWhitespace(c)
      ensures c in t
    {
      var i :| 0 <= i < |s| && s[i] == c;
      assert k <= i && u[i - k] == c;
      assert t[i - k] == c;
    }
  }

  predicate Increasing(r: seq<string>)
  {
    forall i, j :: 0 <= i < j < |r| ==> Less(r[i], r[j])
  }

  /** `x` is the least element of `s`. */
  predicate IsLeast(x: string, s: set<string>)
  {
    x in s && forall y :: y in s && y != x ==> Less(x, y)
  }

  lemma {:induction false} LeastExists(s: set<string>)
    requires s != {}
    ensures exists x :: IsLeast(x, s)
    decreases |s|
  {
    var z :| z in s;
    if s != {z} {
      LeastExists(s - {z});
      var m :| IsLeast(m, s - {z});
      if Less(z, m) {
        forall y | y in s && y != z
          ensures Less(z, y)
        {
          if y != m {
            LessTransitive(z, m, y);
          }
        }
        assert IsLeast(z, s);
      } else {
        LessTotal(z, m);
        assert IsLeast(m, s);
      }
    } else {
      assert IsLeast(z, s);
    }
  }

  lemma LeastUnique(x: string, x': string, s: set<string>)
    requires IsLeast(x, s) && IsLeast(x', s)
    ensures x == x'
  {
    if x != x' {
      LessAsymmetric(x, x');
    }
  }

  /** The elements of a set of strings in increasing order: how a
      `BTreeMap<String, _>` iterates its keys (see `SortedStringsSpec`). */
  function SortedStrings(s: set<string>): (r: seq<string>)
    ensures |r| == |s|
    decreases |s|
  {
    if s == {} then []
    else
      LeastExists(s);
      assert forall x, x' :: IsLeast(x, s) && IsLeast(x', s) ==> x == x' by {
        forall x, x' | IsLeast(x, s) && IsLeast(x', s)
          ensures x == x'
        {
          LeastUnique(x, x', s);
        }
      }
      var x :| IsLeast(x, s);
      assert |s - {x}| == |s| - 1;
      [x] + SortedStrings(s - {x})
  }

  /** The sorted elements are increasing and are exactly those of the set. */
  lemma {:induction false} SortedStringsSpec(s: set<string>)
    ensures Increasing(SortedStrings(s))
    ensures forall x :: x in SortedStrings(s) <==> x in s
    decreases |s|
  {
    SortedStringsMembers(s);
    if s != {} {
      var r := SortedStrings(s);
      var x := r[0];
      assert IsLeast(x, s) && r == [x] + SortedStrings(s - {x});
      var t := SortedStrings(s - {x});
      SortedStringsSpec(s - {x});
      forall k | 0 <= k < |t|
        ensures Less(x, t[k])
      {
        assert t[k] in t;
        assert t[k] in s && t[k] != x;
      }
      ConsIncreasing(x, t);
    }
  }

  lemma ConsIncreasing(x: string, t: seq<string>)
    requires Increasing(t)
    requires forall k :: 0 <= k < |t| ==> Less(x, t[k])
    ensures Increasing([x] + t)
  {
    var r := [x] + t;
    forall i, j | 0 <= i < j < |r|
      ensures Less(r[i], r[j])
    {
      assert r[j] == t[j - 1];
      if i > 0 {
        assert r[i] == t[i - 1];
      }
    }
  }

  lemma {:induction false} SortedStringsMembers(s: set<string>)
    ensures forall x :: x in SortedStrings(s) <==> x in s
    decreases |s|
  {
    if s != {} {
      var r := SortedStrings(s);
      var x := r[0];
      assert IsLeast(x, s) && r == [x] + SortedStrings(s - {x});
      SortedStringsMembers(s - {x});
    }
  }

  // ---------------------------------------------------------------------------
  // Decimal numbers

  predicate IsDigit(c: char)
  {
    '0' <= c <= '9'
  }

  function DigitValue(c: char): nat
    requires IsDigit(c)
  {
    (c as int) - ('0' as int)
  }

  function DigitChar(d: nat): (c: char)
    requires d < 10
    ensures IsDigit(c) && DigitValue(c) == d
  {
    ('0' as int + d) as char
  }

  predicate AllDigits(s: string)
  {
    forall i :: 0 <= i < |s| ==> IsDigit(s[i])
  }

  /** The value of a string of decimal digits, most significant first. */
  function DigitsValue(s: string): nat
    requires AllDigits(s)
  {
    if s == [] then 0 else 10 * DigitsValue(s[..|s| - 1]) + DigitValue(s[|s| - 1])
  }

  /** `u32::from_str`: an optional `+`, then one or more ASCII digits whose value fits in 32 bits. */
  function ParseU32(s: string): (r: Option<u32>)
    ensures r.Some? ==> s != [] && (s[0] == '+' || IsDigit(s[0]))
  {
    if s == [] then None
    else
      var digits := if s[0] == '+' then s[1..] else s;
      if digits == [] || !AllDigits(digits) then None
      else
        var v := DigitsValue(digits);
        if v < 0x1_0000_0000 then Some(v) else None
  }

  /** `format!("{}", n)`: the shortest decimal representation. */
  function Decimal(n: nat): (s: string)
    ensures |s| >= 1 && AllDigits(s)
    ensures |s| > 1 ==> s[0] != '0'
  {
    if n < 10 then [DigitChar(n)] else Decimal(n / 10) + [DigitChar(n % 10)]
  }

  /** `format!("{:0w}", n)`: the decimal representation padded with zeros to at least `w` digits. */
  function ZeroPadded(n: nat, w: nat): (s: string)
    ensures AllDigits(s)
  {
    var d := Decimal(n);
    Zeros(w - |d|) + d
  }

  function Zeros(k: int): (s: string)
    ensures |s| == if k < 0 then 0 else k
    ensures forall i :: 0 <= i < |s| ==> s[i] == '0'
    decreases k
  {
    if k <= 0 then [] else ['0'] + Zeros(k - 1)
  }

  /** Reading back the decimal representation gives the number. */
  lemma {:induction false} DecimalValue(n: nat)
    ensures DigitsValue(Decimal(n)) == n
  {
    if n >= 10 {
      DecimalValue(n / 10);
      var s := Decimal(n);
      assert s[..|s| - 1] == Decimal(n / 10);
    }
  }

  /** Leading zeros do not change the value of a digit string. */
  lemma {:induction false} LeadingZeroValue(s: string)
    requires AllDigits(s)
    ensures AllDigits(['0'] + s) && DigitsValue(['0'] + s) == DigitsValue(s)
    decreases |s|
  {
    if s != [] {
      var t := ['0'] + s;
      assert t[..|t| - 1] == ['0'] + s[..|s| - 1];
      LeadingZeroValue(s[..|s| - 1]);
    }
  }

  lemma {:induction false} ZerosValue(k: int, s: string)
    requires AllDigits(s)
    ensures AllDigits(Zeros(k) + s) && DigitsValue(Zeros(k) + s) == DigitsValue(s)
    decreases k
  {
    if k > 0 {
      ZerosValue(k - 1, s);
      AppendAssoc(['0'], Zeros(k - 1), s);
      LeadingZeroValue(Zeros(k - 1) + s);
    } else {
      assert Zeros(k) + s == s;
    }
  }

  /** Parsing a zero-padded decimal representation gives the number back. */
  lemma ParseZeroPadded(n: u32, w: nat)
    ensures ParseU32(ZeroPadded(n, w)) == Some(n)
  {
    ZeroPaddedValue(n, w);
    ParseDigits(ZeroPadded(n, w));
  }

  /** The padded representation is a non-empty digit string of value `n`. */
  lemma ZeroPaddedValue(n: nat, w: nat)
    ensures ZeroPadded(n, w) != [] && DigitsValue(ZeroPadded(n, w)) == n
  {
    var d := Decimal(n);
    ZerosValue(w - |d|, d);
    DecimalValue(n);
  }

  /** A non-empty digit string whose value fits in 32 bits parses as that value. */
  lemma ParseDigits(s: string)
    requires s != [] && AllDigits(s) && DigitsValue(s) < 0x1_0000_0000
    ensures ParseU32(s) == Some(DigitsValue(s))
  {
    assert IsDigit(s[0]);
  }
}
