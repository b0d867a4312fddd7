/**
  The text-run segmenter of the HTML parser: bare text between a closing `>`
  and the next `<` is wrapped in `<browser_text>…</browser_text>` so that it
  becomes an element of its own.

  `SegmentAsWritten` follows the parser's splice loop literally (positions
  found up front, a running offset for the inserted characters, Python's
  slicing and indexing).  `Rewrite` is an independent description in terms
  of the gaps between consecutive tags of a bracket layout; the lemmas below
  prove that the two agree on markup whose brackets alternate, that the
  rewrite only inserts the two markers, and that a second pass changes
  nothing.
*/
module Segmenter {
  import opened Common

  const OpenMark: string := "<browser_text>"
  const CloseMark: string := "</browser_text>"

  /** Python's `sub in s`. */
  predicate Contains(s: string, sub: string)
    decreases |s|
  {
    sub <= s || (|s| > 0 && Contains(s[1..], sub))
  }

  lemma {:induction false} ContainsAt(s: string, sub: string, at: nat)
    requires at + |sub| <= |s| && s[at..at + |sub|] == sub
    ensures Contains(s, sub)
    decreases at
  {
    if at > 0 {
      assert s[1..][at - 1..at - 1 + |sub|] == s[at..at + |sub|];
      ContainsAt(s[1..], sub, at - 1);
    } else {
      assert sub == s[..|sub|];
    }
  }

  /** `sub` occurs in `s` starting at index `at`. */
  predicate OccursAt(s: string, sub: string, at: nat)
  {
    at + |sub| <= |s| && s[at..at + |sub|] == sub
  }

  /** `sub in s` holds exactly when `sub` occurs somewhere in `s`. */
  lemma {:induction false} ContainsMeans(s: string, sub: string)
    ensures Contains(s, sub) <==> exists at: nat :: OccursAt(s, sub, at)
    decreases |s|
  {
    if Contains(s, sub) {
      if sub <= s {
        assert OccursAt(s, sub, 0);
      } else {
        ContainsMeans(s[1..], sub);
        var at: nat :| OccursAt(s[1..], sub, at);
        assert s[1..][at..at + |sub|] == s[at + 1..at + 1 + |sub|];
        assert OccursAt(s, sub, at + 1);
      }
    }
    if exists at: nat :: OccursAt(s, sub, at) {
      var at: nat :| OccursAt(s, sub, at);
      ContainsAt(s, sub, at);
    }
  }

  lemma {:induction false} ContainsInPrefix(x: string, y: string, sub: string)
    requires Contains(x, sub)
    ensures Contains(x + y, sub)
    decreases |x|
  {
    if !(sub <= x) {
      assert (x + y)[1..] == x[1..] + y;
      ContainsInPrefix(x[1..], y, sub);
    }
  }

  /** Text without any `<`. */
  predicate NoOpen(s: string)
  {
    forall k :: 0 <= k < |s| ==> s[k] != '<'
  }

  /** Text whose last character is `>`. */
  predicate EndsWithClose(s: string)
  {
    |s| > 0 && s[|s| - 1] == '>'
  }

  // ---------- where the brackets are ----------

  /** The list of start positions that `finditer(c, s)` reports for a single character. */
  function Positions(s: string, c: char): (r: seq<nat>)
    ensures forall i :: 0 <= i < |r| ==> r[i] < |s| && s[r[i]] == c
  {
    if |s| == 0 then []
    else
      var r := Positions(s[..|s| - 1], c);
      if s[|s| - 1] == c then r + [|s| - 1] else r
  }

  /** The positions come in increasing order and none is missed. */
  lemma {:induction false} PositionsExact(s: string, c: char)
    ensures var r := Positions(s, c);
      && (forall i, j :: 0 <= i < j < |r| ==> r[i] < r[j])
      && (forall k :: 0 <= k < |s| && s[k] == c ==> k in r)
  {
    if |s| > 0 {
      PositionsExact(s[..|s| - 1], c);
    }
  }

  function Opens(s: string): seq<nat> { Positions(s, '<') }

  function Closes(s: string): seq<nat> { Positions(s, '>') }

  /** Markup together with the positions of its `<` and `>` characters. */
  datatype Markup = Markup(text: string, opens: seq<nat>, closes: seq<nat>)

  /** The markup with the positions the parser's `finditer` calls report. */
  function Found(s: string): Markup
  {
    Markup(s, Opens(s), Closes(s))
  }

  /** Position k of the text is listed if it holds a bracket. */
  predicate Listed(m: Markup, k: nat)
    requires k < |m.text|
  {
    && (m.text[k] == '<' ==> k in m.opens)
    && (m.text[k] == '>' ==> k in m.closes)
  }

  /** The i-th `<` comes before the i-th `>`, and both are where the lists say. */
  predicate TagAt(m: Markup, i: nat)
    requires i < |m.opens| && i < |m.closes|
  {
    && m.opens[i] < m.closes[i] < |m.text|
    && m.text[m.opens[i]] == '<' && m.text[m.closes[i]] == '>'
  }

  /** The i-th `>` comes before the j-th `<`. */
  predicate Before(m: Markup, i: nat, j: nat)
    requires i < |m.closes| && j < |m.opens|
  {
    m.closes[i] < m.opens[j]
  }

  /**
    The listed positions are exactly the brackets of the text, and they
    alternate: the i-th `<` comes before the i-th `>`, which comes before
    every later `<`.  So no `<` or `>` occurs inside text or attribute values.
  */
  predicate Valid(m: Markup)
  {
    && |m.opens| == |m.closes|
    && (forall i :: 0 <= i < |m.closes| ==> TagAt(m, i))
    && (forall i, j :: 0 <= i < j < |m.closes| ==> Before(m, i, j))
    && (forall k :: 0 <= k < |m.text| ==> Listed(m, k))
  }

  /** Markup the segmenter handles as intended: its brackets alternate, starting with `<`. */
  predicate WellBracketed(s: string)
  {
    Valid(Found(s))
  }

  /** Well-bracketedness only asks the found `<` and `>` to alternate; the rest holds for any text. */
  lemma WellBracketedMeans(s: string)
    ensures WellBracketed(s) <==>
      var o, c := Opens(s), Closes(s);
      && |o| == |c|
      && (forall i :: 0 <= i < |c| ==> o[i] < c[i])
      && (forall i, j :: 0 <= i < j < |c| ==> c[i] < o[j])
  {
    var m, o, c := Found(s), Opens(s), Closes(s);
    if WellBracketed(s) {
      forall i | 0 <= i < |c| ensures o[i] < c[i] { assert TagAt(m, i); }
      forall i, j | 0 <= i < j < |c| ensures c[i] < o[j] { assert Before(m, i, j); }
    } else if |o| == |c| && (forall i :: 0 <= i < |c| ==> o[i] < c[i]) {
      PositionsExact(s, '<');
      PositionsExact(s, '>');
      forall k | 0 <= k < |s| ensures Listed(m, k) { }
      assert forall i :: 0 <= i < |c| ==> TagAt(m, i);
      assert !forall i, j :: 0 <= i < j < |c| ==> Before(m, i, j);
    }
  }

  /** The facts the i-th tag of a valid layout provides. */
  lemma TagFacts(m: Markup, i: nat)
    requires Valid(m) && i < |m.closes|
    ensures m.opens[i] < m.closes[i] < |m.text|
    ensures m.text[m.opens[i]] == '<' && m.text[m.closes[i]] == '>'
  {
    assert TagAt(m, i);
  }

  /** The gap after the i-th `>` lies between it and the next tag. */
  lemma Between(m: Markup, i: nat)
    requires Valid(m) && i + 1 < |m.closes|
    ensures m.opens[i] < m.closes[i] < m.opens[i + 1] < m.closes[i + 1] < |m.text|
    ensures m.text[m.opens[i + 1]] == '<' && m.text[m.closes[i]] == '>'
  {
    assert TagAt(m, i) && TagAt(m, i + 1) && Before(m, i, i + 1);
  }

  /** The text between the i-th `>` and the (i+1)-th `<`. */
  function Gap(m: Markup, i: nat): string
    requires Valid(m) && i + 1 < |m.closes|
  {
    assert TagAt(m, i + 1) && Before(m, i, i + 1);
    m.text[m.closes[i] + 1..m.opens[i + 1]]
  }

  /** The i-th tag, from its `<` to its `>` inclusive. */
  function TagText(m: Markup, i: nat): string
    requires Valid(m) && i < |m.closes|
  {
    assert TagAt(m, i);
    m.text[m.opens[i]..m.closes[i] + 1]
  }

  /** A non-empty gap is enclosed in the two markers; an empty one is left alone. */
  function Wrap(g: string): string
  {
    if |g| == 0 then g else OpenMark + g + CloseMark
  }

  /** A wrapped gap followed by more text: the text itself when the gap is empty, else the opening marker first. */
  lemma WrapCases(g: string, t: string)
    ensures |g| == 0 ==> Wrap(g) + t == t
    ensures |g| > 0 ==> Wrap(g) + t == OpenMark + (g + (CloseMark + t))
  {
    if |g| > 0 {
      Regroup(OpenMark + g, CloseMark, t);
      Regroup(OpenMark, g, CloseMark + t);
    } else {
      assert Wrap(g) + t == t;
    }
  }

  /** Wrapping adds the 29 characters of the two markers to a non-empty gap. */
  lemma WrapLength(g: string)
    ensures |Wrap(g)| == |g| + (if |g| > 0 then 29 else 0)
  {
  }

  /** How many of the first i gaps are non-empty, i.e. get wrapped. */
  function WrapCount(m: Markup, i: nat): nat
    requires Valid(m) && i < |m.closes|
  {
    if i == 0 then 0
    else WrapCount(m, i - 1) + (if |Gap(m, i - 1)| > 0 then 1 else 0)
  }

  /** The original markup up to and including its i-th `>`. */
  function Upto(m: Markup, i: nat): string
    requires Valid(m) && i < |m.closes|
  {
    assert TagAt(m, i);
    m.text[..m.closes[i] + 1]
  }

  /** The rewritten form of the markup up to and including its i-th `>`. */
  function Prefix(m: Markup, i: nat): string
    requires Valid(m) && i < |m.closes|
  {
    if i == 0 then Upto(m, 0)
    else Prefix(m, i - 1) + Wrap(Gap(m, i - 1)) + TagText(m, i)
  }

  /** The rewritten prefix up to the (j+1)-th `>` extends the one up to the j-th by the wrapped gap and the tag. */
  lemma PrefixNext(m: Markup, j: nat)
    requires Valid(m) && j + 1 < |m.closes|
    ensures Prefix(m, j + 1) == Prefix(m, j) + (Wrap(Gap(m, j)) + TagText(m, j + 1))
  {
    Regroup(Prefix(m, j), Wrap(Gap(m, j)), TagText(m, j + 1));
  }

  /** Number of gaps wrapped in the whole markup. */
  function WrappedGaps(m: Markup): nat
    requires Valid(m)
  {
    if |m.closes| == 0 then 0 else WrapCount(m, |m.closes| - 1)
  }

  /** The text before the first `<`. */
  function Lead(m: Markup): string
    requires Valid(m) && |m.closes| > 0
  {
    assert TagAt(m, 0);
    m.text[..m.opens[0]]
  }

  /** The text after the last `>`. */
  function Tail(m: Markup): string
    requires Valid(m) && |m.closes| > 0
  {
    After(m, |m.closes| - 1)
  }

  lemma TailLength(m: Markup)
    requires Valid(m) && |m.closes| > 0
    ensures |Tail(m)| == |m.text| - m.closes[|m.closes| - 1] - 1
  {
    TagFacts(m, |m.closes| - 1);
  }

  /** The markup is its part up to the last `>` followed by the tail. */
  lemma SplitAtLast(m: Markup)
    requires Valid(m) && |m.closes| > 0
    ensures m.text == Upto(m, |m.closes| - 1) + Tail(m)
  {
    assert TagAt(m, |m.closes| - 1);
  }

  /**
    Reference rewrite: every gap between the i-th `>` and the (i+1)-th `<`
    (for every `>` but the last) is wrapped when it is not empty; text before
    the first tag and after the last one is copied unchanged.
  */
  function Rewrite(m: Markup): string
    requires Valid(m)
  {
    var c := m.closes;
    if |c| == 0 then m.text else Prefix(m, |c| - 1) + Tail(m)
  }

  /** The reference rewrite of well-bracketed markup. */
  function Segmented(s: string): string
    requires WellBracketed(s)
  {
    Rewrite(Found(s))
  }

  // ---------- the parser's splice loop ----------

  /**
    The splice loop exactly as written: `opens`/`closes` hold the positions
    of `<`/`>` in the original markup, `offset` counts the characters already
    inserted (14 for the opening marker, 15 for the closing one).  `None`
    stands for the IndexError Python raises when a position is missing.
  */
  function Splice(opens: seq<nat>, closes: seq<nat>, i: nat, cur: string, offset: nat): Option<string>
    decreases |closes| - i
  {
    if i + 1 >= |closes| then Some(cur)
    else
      match SpliceAt(opens, closes, i, cur, offset)
      case None => None
      case Some((next, offset')) => Splice(opens, closes, i + 1, next, offset')
  }

  /** One iteration of the splice loop: the markup and offset after looking at the i-th `>`. */
  function SpliceAt(opens: seq<nat>, closes: seq<nat>, i: nat, cur: string, offset: nat): Option<(string, nat)>
    requires i + 1 < |closes|
  {
    var p := closes[i] + offset + 1;
    if p >= |cur| then None
    else if cur[p] == '<' then Some((cur, offset))
    else if i + 1 >= |opens| then None
    else
      var cur1 := cur[..p] + OpenMark + cur[p..];
      var q := if opens[i + 1] + offset + 14 <= |cur1| then opens[i + 1] + offset + 14 else |cur1|;
      Some((cur1[..q] + CloseMark + cur1[q..], offset + 29))
  }

  /** The segmenter's rewrite of one tag's markup, as the parser performs it. */
  function SegmentAsWritten(html: string): Option<string>
  {
    Splice(Opens(html), Closes(html), 0, html, 0)
  }

  // ---------- bracket facts ----------

  /** A position strictly between two consecutive entries of an increasing list is not listed. */
  lemma NotListedBetween(r: seq<nat>, k: nat, a: int)
    requires forall i, j :: 0 <= i < j < |r| ==> r[i] < r[j]
    requires -1 <= a < |r|
    requires a >= 0 ==> r[a] < k
    requires a + 1 < |r| ==> k < r[a + 1]
    ensures k !in r
  {
    forall j | 0 <= j < |r|
      ensures r[j] != k
    {
      if j <= a {
        assert r[j] <= r[a];
      } else {
        assert r[j] >= r[a + 1];
      }
    }
  }

  /** Both position lists of a valid layout are increasing. */
  lemma ListsIncrease(m: Markup)
    requires Valid(m)
    ensures forall i, j :: 0 <= i < j < |m.opens| ==> m.opens[i] < m.opens[j]
    ensures forall i, j :: 0 <= i < j < |m.closes| ==> m.closes[i] < m.closes[j]
  {
    var o, c := m.opens, m.closes;
    forall i, j | 0 <= i < j < |o| ensures o[i] < o[j] {
      assert TagAt(m, i) && Before(m, i, j);
    }
    forall i, j | 0 <= i < j < |c| ensures c[i] < c[j] {
      assert Before(m, i, j) && TagAt(m, j);
    }
  }

  /** A position whose neighbours in both lists are known is neither a `<` nor a `>`. */
  lemma NoBracketBetween(m: Markup, k: nat, a: int, b: int)
    requires Valid(m) && k < |m.text|
    requires -1 <= a < |m.opens| && -1 <= b < |m.closes|
    requires a >= 0 ==> m.opens[a] < k
    requires a + 1 < |m.opens| ==> k < m.opens[a + 1]
    requires b >= 0 ==> m.closes[b] < k
    requires b + 1 < |m.closes| ==> k < m.closes[b + 1]
    ensures m.text[k] != '<' && m.text[k] != '>'
  {
    assert Listed(m, k);
    ListsIncrease(m);
    NotListedBetween(m.opens, k, a);
    NotListedBetween(m.closes, k, b);
  }

  lemma GapHasNoBrackets(m: Markup, i: nat)
    requires Valid(m) && i + 1 < |m.closes|
    ensures m.opens[i + 1] < |m.text|
    ensures forall k :: m.closes[i] < k < m.opens[i + 1] ==> m.text[k] != '<' && m.text[k] != '>'
  {
    var o, c := m.opens, m.closes;
    Between(m, i);
    forall k: nat | c[i] < k < o[i + 1]
      ensures m.text[k] != '<' && m.text[k] != '>'
    {
      NoBracketBetween(m, k, i, i);
    }
  }

  lemma TagInnerHasNoBrackets(m: Markup, i: nat)
    requires Valid(m) && i < |m.closes|
    ensures m.closes[i] < |m.text|
    ensures forall k :: m.opens[i] < k < m.closes[i] ==> m.text[k] != '<' && m.text[k] != '>'
  {
    var o, c := m.opens, m.closes;
    var a: int := i - 1;
    TagFacts(m, i);
    if a >= 0 { Between(m, a); }
    if i + 1 < |o| { Between(m, i); }
    forall k: nat | o[i] < k < c[i]
      ensures m.text[k] != '<' && m.text[k] != '>'
    {
      NoBracketBetween(m, k, i, a);
    }
  }

  lemma OutsideTagsHasNoOpen(m: Markup)
    requires Valid(m)
    ensures |m.closes| == 0 ==> forall k :: 0 <= k < |m.text| ==> m.text[k] != '<'
    ensures |m.closes| > 0 ==> m.opens[0] < |m.text| && forall k :: 0 <= k < m.opens[0] ==> m.text[k] != '<'
    ensures |m.closes| > 0 ==> forall k :: m.closes[|m.closes| - 1] < k < |m.text| ==> m.text[k] != '<'
  {
    var o, c := m.opens, m.closes;
    ListsIncrease(m);
    if |c| > 0 {
      TagFacts(m, 0);
      TagFacts(m, |c| - 1);
    }
    forall k | 0 <= k < |m.text| && m.text[k] == '<'
      ensures |c| > 0 && o[0] <= k < c[|c| - 1]
    {
      assert Listed(m, k);
      var j :| 0 <= j < |o| && o[j] == k;
      TagFacts(m, j);
      assert o[0] <= o[j] <= o[|o| - 1] < c[|c| - 1];
    }
  }

  // ---------- the splice loop follows the gaps ----------

  /** One iteration of the splice loop on a non-empty gap `g` that follows the text `pre`. */
  lemma SpliceStepWraps(opens: seq<nat>, closes: seq<nat>, i: nat, offset: nat, pre: string, g: string, rest: string)
    requires i + 1 < |closes| && i + 1 < |opens|
    requires |pre| == closes[i] + offset + 1
    requires opens[i + 1] == closes[i] + 1 + |g|
    requires |g| > 0 && g[0] != '<'
    ensures SpliceAt(opens, closes, i, pre + g + rest, offset) == Some((pre + Wrap(g) + rest, offset + 29))
  {
    var cur := pre + g + rest;
    var p := |pre|;
    assert cur[p] == g[0];
    Regroup(pre, g, rest);
    InsertAt(pre, g + rest, OpenMark);
    var cur1 := cur[..p] + OpenMark + cur[p..];
    var a := pre + OpenMark + g;
    assert cur1 == a + rest by {
      Regroup(pre + OpenMark, g, rest);
      Regroup(pre, OpenMark, g + rest);
    }
    assert opens[i + 1] + offset + 14 == |a|;
    InsertAt(a, rest, CloseMark);
    assert a + CloseMark == pre + Wrap(g) by {
      Regroup(pre, OpenMark, g);
      Regroup(pre, OpenMark + g, CloseMark);
    }
  }

  /** Splicing `ins` in where `a` ends. */
  lemma InsertAt(a: string, b: string, ins: string)
    ensures (a + b)[..|a|] + ins + (a + b)[|a|..] == a + ins + b
  {
    assert (a + b)[..|a|] == a;
    assert (a + b)[|a|..] == b;
  }

  /** One iteration of the splice loop where the `>` is directly followed by `<`. */
  lemma SpliceStepSkips(opens: seq<nat>, closes: seq<nat>, i: nat, offset: nat, pre: string, rest: string)
    requires i + 1 < |closes|
    requires |pre| == closes[i] + offset + 1
    requires |rest| > 0 && rest[0] == '<'
    ensures SpliceAt(opens, closes, i, pre + rest, offset) == Some((pre + rest, offset))
  {
    assert (pre + rest)[|pre|] == '<';
  }

  /** One iteration of the splice loop, in terms of the gap `g` that follows the `>` ending `pre`. */
  lemma SpliceStep(opens: seq<nat>, closes: seq<nat>, i: nat, offset: nat, pre: string, g: string, rest: string,
                   cur: string, next: string, offset': nat)
    requires i + 1 < |closes| && i + 1 < |opens|
    requires |pre| == closes[i] + offset + 1
    requires opens[i + 1] == closes[i] + 1 + |g|
    requires |g| > 0 ==> g[0] != '<'
    requires |rest| > 0 && rest[0] == '<'
    requires cur == pre + (g + rest)
    requires next == pre + Wrap(g) + rest
    requires offset' == offset + (if |g| > 0 then 29 else 0)
    ensures SpliceAt(opens, closes, i, cur, offset) == Some((next, offset'))
  {
    assert cur == pre + g + rest;
    if |g| > 0 {
      SpliceStepWraps(opens, closes, i, offset, pre, g, rest);
    } else {
      assert cur == pre + rest;
      assert next == pre + rest;
      SpliceStepSkips(opens, closes, i, offset, pre, rest);
    }
  }

  /** The rewritten prefix up to the i-th `>` is 29 characters longer per wrapped gap. */
  predicate LengthAt(m: Markup, i: nat)
    requires Valid(m) && i < |m.closes|
  {
    |Prefix(m, i)| == m.closes[i] + 1 + 29 * WrapCount(m, i)
  }

  /** One more tag adds its gap, its tag and, when the gap is wrapped, the 29 marker characters. */
  lemma PrefixLengthStep(m: Markup, j: nat)
    requires Valid(m) && j + 1 < |m.closes|
    requires LengthAt(m, j)
    ensures LengthAt(m, j + 1)
  {
    Between(m, j);
    WrapLength(Gap(m, j));
  }

  lemma PrefixLengthFirst(m: Markup)
    requires Valid(m) && 0 < |m.closes|
    ensures LengthAt(m, 0)
  {
    TagFacts(m, 0);
  }

  lemma {:induction false} PrefixLengthHolds(m: Markup, i: nat)
    requires Valid(m) && i < |m.closes|
    ensures LengthAt(m, i)
  {
    hide *;
    if i > 0 {
      PrefixLengthHolds(m, i - 1);
      PrefixLengthStep(m, i - 1);
    } else {
      PrefixLengthFirst(m);
    }
  }

  /** The rewritten prefix is 29 characters longer per wrapped gap. */
  lemma PrefixLength(m: Markup, i: nat)
    requires Valid(m) && i < |m.closes|
    ensures |Prefix(m, i)| == m.closes[i] + 1 + 29 * WrapCount(m, i)
  {
    PrefixLengthHolds(m, i);
  }

  /** The i-th tag ends with `>`. */
  lemma TagEnds(m: Markup, i: nat)
    requires Valid(m) && i < |m.closes|
    ensures EndsWithClose(TagText(m, i))
  {
    TagFacts(m, i);
  }

  /** Text ending with `>` still ends with it after anything is put before it. */
  lemma EndsAfter(x: string, y: string, t: string)
    requires EndsWithClose(t)
    ensures EndsWithClose(x + (y + t)) && EndsWithClose(x + t)
  {
    assert (x + (y + t))[|x + (y + t)| - 1] == t[|t| - 1];
    assert (x + t)[|x + t| - 1] == t[|t| - 1];
  }

  /** The rewritten prefix still ends with the i-th tag's `>`. */
  lemma PrefixEndsTag(m: Markup, i: nat)
    requires Valid(m) && i < |m.closes|
    ensures EndsWithClose(Prefix(m, i))
  {
    hide *;
    TagEnds(m, i);
    if i > 0 {
      PrefixNext(m, i - 1);
      EndsAfter(Prefix(m, i - 1), Wrap(Gap(m, i - 1)), TagText(m, i));
    } else {
      FirstTagSplits(m);
      EndsAfter(Lead(m), "", TagText(m, 0));
    }
  }

  /** The markup after the i-th `>`. */
  function After(m: Markup, i: nat): string
    requires Valid(m) && i < |m.closes|
  {
    assert TagAt(m, i);
    m.text[m.closes[i] + 1..]
  }

  /** The markup from the j-th `<` on. */
  function From(m: Markup, j: nat): string
    requires Valid(m) && j < |m.closes|
  {
    assert TagAt(m, j);
    m.text[m.opens[j]..]
  }

  /** The state of the splice loop before its i-th iteration: the rewritten prefix, the untouched rest, the offset. */
  function LoopState(m: Markup, i: nat): (string, nat)
    requires Valid(m) && i < |m.closes|
  {
    (Prefix(m, i) + After(m, i), 29 * WrapCount(m, i))
  }

  /** The markup after the i-th `>` is the next gap followed by the next tag and what follows it. */
  lemma AfterSplits(m: Markup, i: nat)
    requires Valid(m) && i + 1 < |m.closes|
    ensures After(m, i) == Gap(m, i) + From(m, i + 1)
    ensures From(m, i + 1) == TagText(m, i + 1) + After(m, i + 1)
  {
    Between(m, i);
  }

  /** The i-th loop state and the next one, in terms of the i-th gap. */
  lemma LoopStateParts(m: Markup, i: nat)
    requires Valid(m) && i + 1 < |m.closes|
    ensures LoopState(m, i).0 == Prefix(m, i) + (Gap(m, i) + From(m, i + 1))
    ensures LoopState(m, i + 1).0 == Prefix(m, i) + Wrap(Gap(m, i)) + From(m, i + 1)
    ensures LoopState(m, i + 1).1 == LoopState(m, i).1 + (if |Gap(m, i)| > 0 then 29 else 0)
  {
    AfterSplits(m, i);
    Regroup(Prefix(m, i) + Wrap(Gap(m, i)), TagText(m, i + 1), After(m, i + 1));
  }

  /** The gap after the i-th `>` does not start with `<`, and the markup from the next `<` does. */
  lemma GapEdges(m: Markup, i: nat)
    requires Valid(m) && i + 1 < |m.closes|
    ensures m.opens[i + 1] == m.closes[i] + 1 + |Gap(m, i)|
    ensures |Gap(m, i)| > 0 ==> Gap(m, i)[0] != '<'
    ensures |From(m, i + 1)| > 0 && From(m, i + 1)[0] == '<'
  {
    Between(m, i);
    GapHasNoBrackets(m, i);
    if |Gap(m, i)| > 0 {
      assert Gap(m, i)[0] == m.text[m.closes[i] + 1];
    }
  }

  /** The loop starts from the untouched markup and ends with the reference rewrite. */
  lemma LoopStateEnds(m: Markup)
    requires Valid(m) && |m.closes| > 0
    ensures LoopState(m, 0) == (m.text, 0)
    ensures LoopState(m, |m.closes| - 1).0 == Rewrite(m)
  {
    var c := m.closes;
    TagFacts(m, 0);
    assert m.text == m.text[..c[0] + 1] + m.text[c[0] + 1..];
  }

  /** The splice loop's i-th iteration takes the i-th loop state to the next one. */
  lemma SpliceOneGap(m: Markup, i: nat)
    requires Valid(m) && i + 1 < |m.closes|
    ensures SpliceAt(m.opens, m.closes, i, LoopState(m, i).0, LoopState(m, i).1) == Some(LoopState(m, i + 1))
  {
    var pre, g, rest := Prefix(m, i), Gap(m, i), From(m, i + 1);
    LoopStateParts(m, i);
    GapEdges(m, i);
    PrefixLength(m, i);
    Between(m, i);
    SpliceStep(m.opens, m.closes, i, LoopState(m, i).1, pre, g, rest, LoopState(m, i).0, LoopState(m, i + 1).0, LoopState(m, i + 1).1);
  }

  /** The two cases of the reference rewrite and of the count of wrapped gaps. */
  lemma RewriteShape(m: Markup)
    requires Valid(m)
    ensures |m.closes| == 0 ==> Rewrite(m) == m.text && WrappedGaps(m) == 0
    ensures |m.closes| > 0 ==> Rewrite(m) == Prefix(m, |m.closes| - 1) + Tail(m)
    ensures |m.closes| > 0 ==> WrappedGaps(m) == WrapCount(m, |m.closes| - 1)
  {
  }

  /** The reference rewrite is 29 characters longer per wrapped gap. */
  lemma RewriteLength(m: Markup)
    requires Valid(m)
    ensures |Rewrite(m)| == |m.text| + 29 * WrappedGaps(m)
  {
    hide *;
    RewriteShape(m);
    var c := m.closes;
    if |c| > 0 {
      PrefixLength(m, |c| - 1);
      TailLength(m);
    }
  }

  /** Started from the i-th loop state, the splice loop ends with the reference rewrite. */
  predicate SplicesFrom(m: Markup, i: nat)
    requires Valid(m) && i < |m.closes|
  {
    Splice(m.opens, m.closes, i, LoopState(m, i).0, LoopState(m, i).1) == Some(Rewrite(m))
  }

  lemma SpliceFromLast(m: Markup)
    requires Valid(m) && |m.closes| > 0
    ensures SplicesFrom(m, |m.closes| - 1)
  {
    LoopStateEnds(m);
  }

  lemma SpliceFromStep(m: Markup, i: nat)
    requires Valid(m) && i + 1 < |m.closes|
    requires SplicesFrom(m, i + 1)
    ensures SplicesFrom(m, i)
  {
    SpliceOneGap(m, i);
  }

  lemma {:induction false} SpliceFrom(m: Markup, i: nat)
    requires Valid(m) && i < |m.closes|
    ensures SplicesFrom(m, i)
    decreases |m.closes| - i
  {
    hide *;
    if i + 1 < |m.closes| {
      SpliceFrom(m, i + 1);
      SpliceFromStep(m, i);
    } else {
      SpliceFromLast(m);
    }
  }

  /** On any valid layout, the splice loop computes the reference rewrite. */
  lemma SpliceFollowsRewrite(m: Markup)
    requires Valid(m)
    ensures Splice(m.opens, m.closes, 0, m.text, 0) == Some(Rewrite(m))
  {
    if |m.closes| > 0 {
      SpliceFrom(m, 0);
      LoopStateEnds(m);
    }
  }

  /**
    On well-bracketed markup the splice loop never fails, wraps exactly the
    non-empty gaps between the i-th `>` and the (i+1)-th `<`, and grows the
    markup by 29 characters per wrapped gap.
  */
  lemma SegmentWrapsGaps(s: string)
    requires WellBracketed(s)
    ensures SegmentAsWritten(s) == Some(Segmented(s))
    ensures |SegmentAsWritten(s).value| == |s| + 29 * WrappedGaps(Found(s))
  {
    SpliceFollowsRewrite(Found(s));
    RewriteLength(Found(s));
  }

  // ---------- deleting the markers gives the markup back ----------

  /** Removes every occurrence of the two markers, scanning left to right. */
  function Strip(s: string): string
    decreases |s|
  {
    if |s| == 0 then ""
    else if OpenMark <= s then Strip(s[|OpenMark|..])
    else if CloseMark <= s then Strip(s[|CloseMark|..])
    else [s[0]] + Strip(s[1..])
  }

  lemma MarkersCloseOnlyAtEnd()
    ensures forall k :: 0 <= k < |OpenMark| - 1 ==> OpenMark[k] != '>'
    ensures forall k :: 0 <= k < |CloseMark| - 1 ==> CloseMark[k] != '>'
    ensures OpenMark[0] == '<' && CloseMark[0] == '<'
    ensures OpenMark[|OpenMark| - 1] == '>' && CloseMark[|CloseMark| - 1] == '>'
  {
  }

  /** `Strip` of the empty text. */
  lemma StripNil()
    ensures Strip("") == ""
  {
  }

  /** `Strip` on text that starts with the opening marker. */
  lemma StripOpen(s: string)
    requires OpenMark <= s
    ensures |s[|OpenMark|..]| < |s|
    ensures Strip(s) == Strip(s[|OpenMark|..])
  {
  }

  /** `Strip` on text that starts with the closing marker. */
  lemma StripClose(s: string)
    requires !(OpenMark <= s) && CloseMark <= s
    ensures |s[|CloseMark|..]| < |s|
    ensures Strip(s) == Strip(s[|CloseMark|..])
  {
  }

  /** `Strip` on text that starts with no marker keeps its first character. */
  lemma StripChar(s: string)
    requires |s| > 0 && !(OpenMark <= s) && !(CloseMark <= s)
    ensures Strip(s) == [s[0]] + Strip(s[1..])
  {
  }

  /** Text that does not start with `<` starts with no marker. */
  lemma NoMarkerAtPlain(s: string)
    requires |s| > 0 && s[0] != '<'
    ensures !(OpenMark <= s) && !(CloseMark <= s)
  {
    MarkersCloseOnlyAtEnd();
  }

  /** A marker that does not start `x + y` does not start `x` either. */
  lemma NotPrefixOfPart(a: string, x: string, y: string)
    requires !(a <= x + y)
    ensures !(a <= x)
  {
  }

  /** Dropping the start of text ending with `>` leaves empty text or text ending with `>`. */
  lemma DropKeepsEnd(x: string, k: nat)
    requires EndsWithClose(x) && k <= |x|
    ensures |x[k..]| == 0 || EndsWithClose(x[k..])
  {
    if k < |x| {
      assert x[k..][|x| - k - 1] == x[|x| - 1];
    }
  }

  /** Text without `<` has a first character other than `<` and a rest without `<`. */
  lemma NoOpenHead(p: string)
    requires NoOpen(p) && |p| > 0
    ensures p[0] != '<' && NoOpen(p[1..])
  {
    forall k | 0 <= k < |p| - 1 ensures p[1..][k] != '<' {
      assert p[1..][k] == p[k + 1];
    }
  }

  /** Stripping skips a leading opening marker. */
  lemma StripLeadOpen(r: string)
    ensures Strip(OpenMark + r) == Strip(r)
  {
    StripOpen(OpenMark + r);
    assert (OpenMark + r)[|OpenMark|..] == r;
  }

  /** Stripping skips a leading closing marker. */
  lemma StripLeadClose(r: string)
    ensures Strip(CloseMark + r) == Strip(r)
  {
    assert !(OpenMark <= CloseMark + r) by { assert OpenMark[1] != (CloseMark + r)[1]; }
    StripClose(CloseMark + r);
    assert (CloseMark + r)[|CloseMark|..] == r;
  }

  /** Text without `<` passes through unchanged. */
  lemma {:induction false} StripKeepsPlain(p: string, y: string)
    requires NoOpen(p)
    ensures Strip(p + y) == p + Strip(y)
    decreases |p|
  {
    hide *;
    if |p| > 0 {
      NoOpenHead(p);
      assert (p + y)[0] == p[0];
      NoMarkerAtPlain(p + y);
      StripChar(p + y);
      assert (p + y)[1..] == p[1..] + y;
      StripKeepsPlain(p[1..], y);
      assert p == [p[0]] + p[1..];
      Regroup([p[0]], p[1..], Strip(y));
    } else {
      assert p + y == y;
    }
  }

  /** A non-empty proper prefix of a marker does not end with `>`. */
  lemma MarkerPrefixIsOpen(x: string, y: string, m: string)
    requires m == OpenMark || m == CloseMark
    requires 0 < |x| && m <= x + y
    requires EndsWithClose(x)
    ensures m <= x
  {
    MarkersCloseOnlyAtEnd();
    assert forall j :: 0 <= j < |m| - 1 ==> (x + y)[j] != '>';
    assert (x + y)[|x| - 1] == '>';
    assert |x| >= |m|;
    assert forall k :: 0 <= k < |m| ==> x[k] == (x + y)[k];
  }

  /** A markup piece that ends with `>` cannot hold the start of a marker that runs past it. */
  lemma {:induction false} StripSplit(x: string, y: string)
    requires |x| == 0 || EndsWithClose(x)
    ensures Strip(x + y) == Strip(x) + Strip(y)
    decreases |x|
  {
    hide *;
    if |x| == 0 {
      assert x == "" && x + y == y;
      StripNil();
    } else if OpenMark <= x + y {
      MarkerPrefixIsOpen(x, y, OpenMark);
      StripOpen(x + y);
      StripOpen(x);
      assert (x + y)[|OpenMark|..] == x[|OpenMark|..] + y;
      DropKeepsEnd(x, |OpenMark|);
      StripSplit(x[|OpenMark|..], y);
    } else if CloseMark <= x + y {
      MarkerPrefixIsOpen(x, y, CloseMark);
      NotPrefixOfPart(OpenMark, x, y);
      StripClose(x + y);
      StripClose(x);
      assert (x + y)[|CloseMark|..] == x[|CloseMark|..] + y;
      DropKeepsEnd(x, |CloseMark|);
      StripSplit(x[|CloseMark|..], y);
    } else {
      NotPrefixOfPart(OpenMark, x, y);
      NotPrefixOfPart(CloseMark, x, y);
      StripChar(x + y);
      StripChar(x);
      assert (x + y)[0] == x[0];
      assert (x + y)[1..] == x[1..] + y;
      DropKeepsEnd(x, 1);
      StripSplit(x[1..], y);
      Regroup([x[0]], Strip(x[1..]), Strip(y));
    }
  }

  /** A tag other than the two markers survives stripping. */
  lemma StripKeepsTag(t: string)
    requires |t| >= 2 && t[0] == '<' && t[|t| - 1] == '>'
    requires forall k :: 0 < k < |t| - 1 ==> t[k] != '<' && t[k] != '>'
    requires t != OpenMark && t != CloseMark
    ensures Strip(t) == t
  {
    MarkersCloseOnlyAtEnd();
    assert !(OpenMark <= t);
    assert !(CloseMark <= t);
    StripKeepsPlain(t[1..], "");
    assert t[1..] + "" == t[1..];
    assert t == [t[0]] + t[1..];
  }

  /** A wrapped gap followed by stripped text loses exactly its markers. */
  lemma StripMarkedGap(g: string, t: string)
    requires NoOpen(g)
    requires Strip(t) == t
    ensures Strip(Wrap(g) + t) == g + t
  {
    hide *;
    WrapCases(g, t);
    if |g| > 0 {
      StripLeadOpen(g + (CloseMark + t));
      StripKeepsPlain(g, CloseMark + t);
      StripLeadClose(t);
    } else {
      assert g + t == t;
    }
  }

  lemma TagTextIsNoMarker(m: Markup, i: nat)
    requires Valid(m) && i < |m.closes|
    requires !Contains(m.text, OpenMark) && !Contains(m.text, CloseMark)
    ensures Strip(TagText(m, i)) == TagText(m, i)
  {
    var o, c := m.opens, m.closes;
    var t := TagText(m, i);
    TagFacts(m, i);
    TagInnerHasNoBrackets(m, i);
    if t == OpenMark { ContainsAt(m.text, OpenMark, o[i]); }
    if t == CloseMark { ContainsAt(m.text, CloseMark, o[i]); }
    forall k | 0 < k < |t| - 1 ensures t[k] != '<' && t[k] != '>' {
      assert t[k] == m.text[o[i] + k];
    }
    assert t[0] == m.text[o[i]];
    assert t[|t| - 1] == m.text[c[i]];
    StripKeepsTag(t);
  }

  /** Stripping a rewritten prefix extended by one wrapped gap and one tag. */
  lemma StripExtends(pre: string, g: string, t: string)
    requires EndsWithClose(pre) && NoOpen(g)
    requires Strip(t) == t
    ensures Strip(pre + (Wrap(g) + t)) == Strip(pre) + g + t
  {
    StripSplit(pre, Wrap(g) + t);
    StripMarkedGap(g, t);
  }

  /** The gap between two tags holds no `<`, as a string of its own. */
  lemma GapIsPlain(m: Markup, i: nat)
    requires Valid(m) && i + 1 < |m.closes|
    ensures NoOpen(Gap(m, i))
  {
    GapHasNoBrackets(m, i);
    Between(m, i);
    var c := m.closes;
    forall k | 0 <= k < |Gap(m, i)| ensures Gap(m, i)[k] != '<' {
      assert Gap(m, i)[k] == m.text[c[i] + 1 + k];
    }
  }

  /** The original markup up to the (j+1)-th `>` is the markup up to the j-th `>`, the gap and the next tag. */
  lemma OriginalPrefixSplits(m: Markup, j: nat)
    requires Valid(m) && j + 1 < |m.closes|
    ensures Upto(m, j + 1) == Upto(m, j) + Gap(m, j) + TagText(m, j + 1)
  {
    Between(m, j);
  }

  /** The i-th tag is not one of the markers, so stripping leaves it alone. */
  predicate TagKept(m: Markup, i: nat)
    requires Valid(m) && i < |m.closes|
  {
    Strip(TagText(m, i)) == TagText(m, i)
  }

  predicate TagsKept(m: Markup)
    requires Valid(m)
  {
    forall i :: 0 <= i < |m.closes| ==> TagKept(m, i)
  }

  /** Stripping the rewritten prefix up to the i-th `>` gives the original markup up to it. */
  predicate StripsAt(m: Markup, i: nat)
    requires Valid(m) && i < |m.closes|
  {
    Strip(Prefix(m, i)) == Upto(m, i)
  }

  lemma TagKeptMeans(m: Markup, i: nat)
    requires Valid(m) && i < |m.closes|
    ensures TagKept(m, i) <==> Strip(TagText(m, i)) == TagText(m, i)
  {
  }

  lemma StripsAtMeans(m: Markup, i: nat)
    requires Valid(m) && i < |m.closes|
    ensures StripsAt(m, i) <==> Strip(Prefix(m, i)) == Upto(m, i)
  {
  }

  /** The markup up to the first `>` is the text before the first tag followed by that tag. */
  lemma FirstTagSplits(m: Markup)
    requires Valid(m) && 0 < |m.closes|
    ensures Prefix(m, 0) == Upto(m, 0) == Lead(m) + TagText(m, 0)
    ensures NoOpen(Lead(m))
  {
    OutsideTagsHasNoOpen(m);
    TagFacts(m, 0);
  }

  lemma KeptOne(m: Markup, i: nat)
    requires Valid(m) && i < |m.closes|
    requires TagsKept(m)
    ensures TagKept(m, i)
  {
  }

  lemma StripFirstPrefix(m: Markup)
    requires Valid(m) && 0 < |m.closes|
    requires TagKept(m, 0)
    ensures StripsAt(m, 0)
  {
    hide *;
    FirstTagSplits(m);
    StripsAtMeans(m, 0);
    TagKeptMeans(m, 0);
    StripKeepsPlain(Lead(m), TagText(m, 0));
  }

  /** One more tag: if stripping works up to the j-th `>`, it works up to the next one. */
  lemma StripPrefixStep(m: Markup, j: nat)
    requires Valid(m) && j + 1 < |m.closes|
    requires TagKept(m, j + 1) && StripsAt(m, j)
    ensures StripsAt(m, j + 1)
  {
    hide *;
    var pre, g, t := Prefix(m, j), Gap(m, j), TagText(m, j + 1);
    PrefixNext(m, j);
    StripsAtMeans(m, j);
    StripsAtMeans(m, j + 1);
    TagKeptMeans(m, j + 1);
    PrefixEndsTag(m, j);
    GapIsPlain(m, j);
    OriginalPrefixSplits(m, j);
    StripExtends(pre, g, t);
  }

  lemma {:induction false} StripPrefix(m: Markup, i: nat)
    requires Valid(m) && i < |m.closes|
    requires TagsKept(m)
    ensures StripsAt(m, i)
  {
    hide *;
    KeptOne(m, i);
    if i == 0 {
      StripFirstPrefix(m);
    } else {
      StripPrefix(m, i - 1);
      StripPrefixStep(m, i - 1);
    }
  }

  /** Text after the last tag holds no `<`. */
  lemma TailIsPlain(m: Markup)
    requires Valid(m) && |m.closes| > 0
    ensures NoOpen(Tail(m))
  {
    var c := m.closes;
    var t := Tail(m);
    TagFacts(m, |c| - 1);
    OutsideTagsHasNoOpen(m);
    forall k | 0 <= k < |t| ensures t[k] != '<' {
      assert t[k] == m.text[c[|c| - 1] + 1 + k];
    }
  }

  /** Stripping the reference rewrite gives the markup back when no tag of it is a marker. */
  lemma StripRewrite(m: Markup)
    requires Valid(m)
    requires TagsKept(m)
    ensures Strip(Rewrite(m)) == m.text
  {
    var s, c := m.text, m.closes;
    if |c| == 0 {
      OutsideTagsHasNoOpen(m);
      StripKeepsPlain(s, "");
      assert s + "" == s;
    } else {
      var pre, tail := Prefix(m, |c| - 1), Tail(m);
      PrefixEndsTag(m, |c| - 1);
      StripPrefix(m, |c| - 1);
      StripSplit(pre, tail);
      TailIsPlain(m);
      StripKeepsPlain(tail, "");
      assert tail + "" == tail;
      SplitAtLast(m);
    }
  }

  /**
    Deleting the inserted markers from the rewritten markup gives back the
    original markup, provided the markup held no marker of its own.
  */
  lemma StripUndoesSegment(s: string)
    requires WellBracketed(s)
    requires !Contains(s, OpenMark) && !Contains(s, CloseMark)
    ensures SegmentAsWritten(s).Some?
    ensures Strip(SegmentAsWritten(s).value) == s
  {
    var m := Found(s);
    SpliceFollowsRewrite(m);
    forall k | 0 <= k < |m.closes| ensures TagKept(m, k) {
      TagTextIsNoMarker(m, k);
    }
    StripRewrite(m);
  }

  // ---------- a second pass changes nothing ----------

  /** The rewritten prefix up to the i-th `>` is the original markup up to it. */
  predicate KeptAt(m: Markup, i: nat)
    requires Valid(m) && i < |m.closes|
  {
    Prefix(m, i) == Upto(m, i)
  }

  lemma KeptAtMeans(m: Markup, i: nat)
    requires Valid(m) && i < |m.closes|
    ensures KeptAt(m, i) <==> Prefix(m, i) == Upto(m, i)
  {
  }

  lemma NoWrapStep(m: Markup, j: nat)
    requires Valid(m) && j + 1 < |m.closes|
    requires WrapCount(m, j + 1) == 0 && KeptAt(m, j)
    ensures KeptAt(m, j + 1)
  {
    OriginalPrefixSplits(m, j);
  }

  /** While no gap has been wrapped, the rewritten prefix is the original one. */
  lemma {:induction false} NoWrapKeepsPrefix(m: Markup, i: nat)
    requires Valid(m) && i < |m.closes|
    requires WrapCount(m, i) == 0
    ensures KeptAt(m, i)
  {
    if i > 0 {
      NoWrapKeepsPrefix(m, i - 1);
      NoWrapStep(m, i - 1);
    }
  }

  /** A marker placed after any text is found by `in`. */
  lemma MarkerAfter(x: string, y: string)
    ensures Contains(x + (OpenMark + y), OpenMark)
  {
    var z := x + (OpenMark + y);
    assert z[|x|..|x| + |OpenMark|] == OpenMark;
    ContainsAt(z, OpenMark, |x|);
  }


  /** The rewritten prefix up to the i-th `>` holds an opening marker. */
  predicate MarkedAt(m: Markup, i: nat)
    requires Valid(m) && i < |m.closes|
  {
    Contains(Prefix(m, i), OpenMark)
  }

  lemma MarkedAtMeans(m: Markup, i: nat)
    requires Valid(m) && i < |m.closes|
    ensures MarkedAt(m, i) <==> Contains(Prefix(m, i), OpenMark)
  {
  }

  lemma WrapMarksStep(m: Markup, j: nat)
    requires Valid(m) && j + 1 < |m.closes|
    requires WrapCount(m, j + 1) > 0
    requires WrapCount(m, j) > 0 ==> MarkedAt(m, j)
    ensures MarkedAt(m, j + 1)
  {
    var pre, g, t := Prefix(m, j), Gap(m, j), TagText(m, j + 1);
    Regroup(pre, Wrap(g), t);
    if WrapCount(m, j) > 0 {
      ContainsInPrefix(pre, Wrap(g) + t, OpenMark);
    } else {
      WrapCases(g, t);
      MarkerAfter(pre, g + (CloseMark + t));
    }
  }

  /** Once a gap has been wrapped, the rewritten prefix holds an opening marker. */
  lemma {:induction false} WrapLeavesMarker(m: Markup, i: nat)
    requires Valid(m) && i < |m.closes|
    requires WrapCount(m, i) > 0
    ensures MarkedAt(m, i)
  {
    assert i > 0;
    if WrapCount(m, i - 1) > 0 {
      WrapLeavesMarker(m, i - 1);
    }
    WrapMarksStep(m, i - 1);
  }

  /** Markup whose gaps are all empty is its own rewrite. */
  lemma NoWrapKeepsMarkup(m: Markup)
    requires Valid(m) && WrappedGaps(m) == 0
    ensures Rewrite(m) == m.text
  {
    hide *;
    RewriteShape(m);
    var c := m.closes;
    if |c| > 0 {
      NoWrapKeepsPrefix(m, |c| - 1);
      KeptAtMeans(m, |c| - 1);
      SplitAtLast(m);
    }
  }

  /** A rewrite that wrapped some gap contains an opening marker. */
  lemma WrappedRewriteHasMarker(m: Markup)
    requires Valid(m) && WrappedGaps(m) > 0
    ensures Contains(Rewrite(m), OpenMark)
  {
    hide *;
    RewriteShape(m);
    var c := m.closes;
    WrapLeavesMarker(m, |c| - 1);
    MarkedAtMeans(m, |c| - 1);
    ContainsInPrefix(Prefix(m, |c| - 1), Tail(m), OpenMark);
  }

  /**
    Segmenting already segmented markup is a no-op: either the result holds
    an opening marker, so the parser's `<browser_text>` guard skips the
    rewrite, or nothing was wrapped and the splice loop returns it unchanged.
  */
  lemma SegmentIsIdempotent(s: string)
    requires WellBracketed(s)
    ensures SegmentAsWritten(s).Some?
    ensures var t := SegmentAsWritten(s).value;
      Contains(t, OpenMark) || SegmentAsWritten(t) == Some(t)
  {
    var m := Found(s);
    SpliceFollowsRewrite(m);
    if WrappedGaps(m) > 0 {
      WrappedRewriteHasMarker(m);
    } else {
      NoWrapKeepsMarkup(m);
    }
  }
}
