/**
  The rule catalog and its tag index. The catalog itself (the concatenation of
  every built-in rule list) is a parameter `rules: seq<Rule>` of each operation.
 */
module Catalog {
  import opened Options
  import opened Rules

  /** All catalog rules that carry `tag`, in catalog order. */
  datatype Section = Section(tag: string, rules: seq<Rule>)

  function Size(s: Section): nat {
    |s.rules|
  }

  predicate NoDup(xs: seq<string>) {
    forall i, j | 0 <= i < j < |xs| :: xs[i] != xs[j]
  }

  // ---------------------------------------------------------------------
  // tags in first-appearance order

  /** Every tag of every rule, rule by rule (`rules.flatMap(rule => rule.tags)`). */
  function AllTags(rules: seq<Rule>): (r: seq<string>)
    ensures forall t :: t in r <==> exists i | 0 <= i < |rules| :: t in rules[i].tags
  {
    if |rules| == 0 then []
    else
      var rest := AllTags(rules[1..]);
      assert forall i | 1 <= i < |rules| :: rules[1..][i - 1] == rules[i];
      rules[0].tags + rest
  }

  /** The position where `x` first appears in `xs`. */
  function FirstIndex(xs: seq<string>, x: string): (i: nat)
    requires x in xs
    ensures i < |xs| && xs[i] == x && x !in xs[..i]
  {
    if xs[0] == x then 0 else 1 + FirstIndex(xs[1..], x)
  }

  /** Where `x` first appears, or past the end when it does not. */
  function Rank(xs: seq<string>, x: string): nat {
    if x in xs then FirstIndex(xs, x) else |xs|
  }

  lemma FirstIndexUnique(xs: seq<string>, x: string, k: nat)
    requires k < |xs| && xs[k] == x && x !in xs[..k]
    ensures FirstIndex(xs, x) == k
  {
  }

  lemma FirstIndexExtend(xs: seq<string>, x: string)
    ensures forall y | y in xs :: FirstIndex(xs + [x], y) == FirstIndex(xs, y)
  {
    forall y | y in xs
      ensures FirstIndex(xs + [x], y) == FirstIndex(xs, y)
    {
      var k := FirstIndex(xs, y);
      assert (xs + [x])[..k] == xs[..k];
      FirstIndexUnique(xs + [x], y, k);
    }
  }

  /** The distinct elements of `xs` in the order they first appear, as
      `Array.from(new Set(xs))` lists them. */
  function Distinct(xs: seq<string>): (r: seq<string>)
    ensures forall x :: x in r <==> x in xs
    ensures NoDup(r)
    ensures forall i, j | 0 <= i < j < |r| :: FirstIndex(xs, r[i]) < FirstIndex(xs, r[j])
  {
    if |xs| == 0 then []
    else
      var init := xs[..|xs| - 1];
      var x := xs[|xs| - 1];
      assert xs == init + [x];
      var d := Distinct(init);
      FirstIndexExtend(init, x);
      if x in d then d
      else
        FirstIndexUnique(xs, x, |xs| - 1);
        d + [x]
  }

  // ---------------------------------------------------------------------
  // grouping

  /** The catalog rules that carry `tag`, in catalog order
      (`rules.filter(rule => rule.tags.includes(tag))`). */
  function RulesWithTag(rules: seq<Rule>, tag: string): (r: seq<Rule>)
    ensures |r| <= |rules|
    ensures forall x :: x in r <==> x in rules && tag in x.tags
    ensures (forall i | 0 <= i < |rules| :: tag !in rules[i].tags) ==> r == []
  {
    if |rules| == 0 then []
    else (if tag in rules[0].tags then [rules[0]] else []) + RulesWithTag(rules[1..], tag)
  }

  /** Filtering distributes over concatenation: the rules keep their relative order. */
  lemma {:induction false} RulesWithTagAppend(a: seq<Rule>, b: seq<Rule>, tag: string)
    ensures RulesWithTag(a + b, tag) == RulesWithTag(a, tag) + RulesWithTag(b, tag)
    decreases |a|
  {
    if |a| == 0 {
      assert a + b == b;
    } else {
      assert (a + b)[1..] == a[1..] + b;
      RulesWithTagAppend(a[1..], b, tag);
    }
  }

  /** One section per tag of `tags`, in that order. */
  function Group(rules: seq<Rule>, tags: seq<string>): (r: seq<Section>)
    ensures |r| == |tags|
    ensures forall i | 0 <= i < |r| :: r[i] == Section(tags[i], RulesWithTag(rules, tags[i]))
  {
    if |tags| == 0 then [] else [Section(tags[0], RulesWithTag(rules, tags[0]))] + Group(rules, tags[1..])
  }

  // ---------------------------------------------------------------------
  // stable sort by size, largest first

  function Tags(secs: seq<Section>): (r: seq<string>)
    ensures |r| == |secs|
    ensures forall i | 0 <= i < |secs| :: r[i] == secs[i].tag
  {
    seq(|secs|, i requires 0 <= i < |secs| => secs[i].tag)
  }

  predicate SortedBySize(secs: seq<Section>) {
    forall i, j | 0 <= i < j < |secs| :: Size(secs[i]) >= Size(secs[j])
  }

  /** The sections of size `k`, in their order in `secs`. */
  function OfSize(secs: seq<Section>, k: nat): (r: seq<Section>)
    ensures forall e :: e in r <==> e in secs && Size(e) == k
  {
    if |secs| == 0 then []
    else (if Size(secs[0]) == k then [secs[0]] else []) + OfSize(secs[1..], k)
  }

  function SumSizes(secs: seq<Section>): nat {
    if |secs| == 0 then 0 else Size(secs[0]) + SumSizes(secs[1..])
  }

  /** Sections of equal size appear in increasing rank with respect to `order`. */
  predicate TiesInOrder(secs: seq<Section>, order: seq<string>) {
    forall i, j | 0 <= i < j < |secs| && Size(secs[i]) == Size(secs[j]) ::
      Rank(order, secs[i].tag) < Rank(order, secs[j].tag)
  }

  predicate TagsDistinct(secs: seq<Section>) {
    forall i, j | 0 <= i < j < |secs| :: secs[i].tag != secs[j].tag
  }

  lemma OfSizeCons(a: Section, t: seq<Section>, k: nat)
    ensures OfSize([a] + t, k) == (if Size(a) == k then [a] else []) + OfSize(t, k)
  {
    assert ([a] + t)[1..] == t;
  }

  lemma SumSizesCons(a: Section, t: seq<Section>)
    ensures SumSizes([a] + t) == Size(a) + SumSizes(t)
  {
    assert ([a] + t)[1..] == t;
  }

  lemma SortedCons(a: Section, t: seq<Section>)
    ensures SortedBySize([a] + t) <==> SortedBySize(t) && forall e | e in t :: Size(e) <= Size(a)
  {
    var s := [a] + t;
    if SortedBySize(t) && forall e | e in t :: Size(e) <= Size(a) {
      forall i, j | 0 <= i < j < |s|
        ensures Size(s[i]) >= Size(s[j])
      {
        assert s[j] == t[j - 1];
        if i > 0 {
          assert s[i] == t[i - 1];
        }
      }
    }
    if SortedBySize(s) {
      forall i, j | 0 <= i < j < |t|
        ensures Size(t[i]) >= Size(t[j])
      {
        assert s[i + 1] == t[i] && s[j + 1] == t[j];
      }
      forall e | e in t
        ensures Size(e) <= Size(a)
      {
        var j :| 0 <= j < |t| && t[j] == e;
        assert s[0] == a && s[j + 1] == e;
      }
    }
  }

  lemma TiesCons(a: Section, t: seq<Section>, order: seq<string>)
    ensures TiesInOrder([a] + t, order) <==>
              TiesInOrder(t, order) &&
              forall e | e in t && Size(e) == Size(a) :: Rank(order, a.tag) < Rank(order, e.tag)
  {
    var s := [a] + t;
    if TiesInOrder(t, order) && forall e | e in t && Size(e) == Size(a) :: Rank(order, a.tag) < Rank(order, e.tag) {
      forall i, j | 0 <= i < j < |s| && Size(s[i]) == Size(s[j])
        ensures Rank(order, s[i].tag) < Rank(order, s[j].tag)
      {
        assert s[j] == t[j - 1];
        if i > 0 {
          assert s[i] == t[i - 1];
        }
      }
    }
    if TiesInOrder(s, order) {
      forall i, j | 0 <= i < j < |t| && Size(t[i]) == Size(t[j])
        ensures Rank(order, t[i].tag) < Rank(order, t[j].tag)
      {
        assert s[i + 1] == t[i] && s[j + 1] == t[j];
      }
      forall e | e in t && Size(e) == Size(a)
        ensures Rank(order, a.tag) < Rank(order, e.tag)
      {
        var j :| 0 <= j < |t| && t[j] == e;
        assert s[0] == a && s[j + 1] == e;
      }
    }
  }

  lemma TagsDistinctCons(a: Section, t: seq<Section>)
    ensures TagsDistinct([a] + t) <==> TagsDistinct(t) && forall e | e in t :: e.tag != a.tag
  {
    var s := [a] + t;
    if TagsDistinct(t) && forall e | e in t :: e.tag != a.tag {
      forall i, j | 0 <= i < j < |s|
        ensures s[i].tag != s[j].tag
      {
        assert s[j] == t[j - 1];
        if i > 0 {
          assert s[i] == t[i - 1];
        }
      }
    }
    if TagsDistinct(s) {
      forall i, j | 0 <= i < j < |t|
        ensures t[i].tag != t[j].tag
      {
        assert s[i + 1] == t[i] && s[j + 1] == t[j];
      }
      forall e | e in t
        ensures e.tag != a.tag
      {
        var j :| 0 <= j < |t| && t[j] == e;
        assert s[0] == a && s[j + 1] == e;
      }
    }
  }

  /** Places `x` before the first section that is no larger than it. */
  function Insert(x: Section, s: seq<Section>): (r: seq<Section>)
    ensures multiset(r) == multiset([x] + s)
    ensures |r| == |s| + 1
    ensures forall e :: e in r <==> e == x || e in s
  {
    if |s| == 0 || Size(s[0]) <= Size(x) then [x] + s
    else
      assert s == [s[0]] + s[1..];
      [s[0]] + Insert(x, s[1..])
  }

  lemma {:induction false} InsertSorted(x: Section, s: seq<Section>)
    requires SortedBySize(s)
    ensures SortedBySize(Insert(x, s))
    decreases |s|
  {
    if |s| == 0 {
      SortedCons(x, s);
    } else {
      assert s == [s[0]] + s[1..];
      SortedCons(s[0], s[1..]);
      if Size(s[0]) <= Size(x) {
        SortedCons(x, s);
      } else {
        InsertSorted(x, s[1..]);
        SortedCons(s[0], Insert(x, s[1..]));
      }
    }
  }

  lemma {:induction false} InsertOfSize(x: Section, s: seq<Section>, k: nat)
    ensures OfSize(Insert(x, s), k) == OfSize([x] + s, k)
    decreases |s|
  {
    if |s| > 0 && Size(s[0]) > Size(x) {
      var t := Insert(x, s[1..]);
      assert Insert(x, s) == [s[0]] + t;
      InsertOfSize(x, s[1..], k);
      OfSizeCons(s[0], t, k);
      OfSizeCons(s[0], [x] + s[1..], k);
      OfSizeSwap(s[0], x, s[1..], k);
      assert [x] + ([s[0]] + s[1..]) == [x] + s;
    }
  }

  /** Two sections of different sizes can trade places without changing any size class. */
  lemma OfSizeSwap(a: Section, b: Section, t: seq<Section>, k: nat)
    requires Size(a) != Size(b)
    ensures OfSize([a] + ([b] + t), k) == OfSize([b] + ([a] + t), k)
  {
    OfSizeCons(a, [b] + t, k);
    OfSizeCons(b, t, k);
    OfSizeCons(b, [a] + t, k);
    OfSizeCons(a, t, k);
  }

  lemma {:induction false} InsertSum(x: Section, s: seq<Section>)
    ensures SumSizes(Insert(x, s)) == Size(x) + SumSizes(s)
    decreases |s|
  {
    if |s| == 0 || Size(s[0]) <= Size(x) {
      SumSizesCons(x, s);
    } else {
      var t := Insert(x, s[1..]);
      assert s == [s[0]] + s[1..];
      InsertSum(x, s[1..]);
      SumSizesCons(s[0], t);
      SumSizesCons(s[0], s[1..]);
    }
  }

  lemma {:induction false} InsertKeepsTies(x: Section, s: seq<Section>, order: seq<string>)
    requires TiesInOrder(s, order)
    requires forall e | e in s :: Rank(order, x.tag) < Rank(order, e.tag)
    ensures TiesInOrder(Insert(x, s), order)
    decreases |s|
  {
    if |s| == 0 || Size(s[0]) <= Size(x) {
      TiesCons(x, s, order);
    } else {
      assert s == [s[0]] + s[1..];
      TiesCons(s[0], s[1..], order);
      InsertKeepsTies(x, s[1..], order);
      TiesCons(s[0], Insert(x, s[1..]), order);
    }
  }

  lemma {:induction false} InsertKeepsTagsDistinct(x: Section, s: seq<Section>)
    requires TagsDistinct(s)
    requires forall e | e in s :: e.tag != x.tag
    ensures TagsDistinct(Insert(x, s))
    decreases |s|
  {
    if |s| == 0 || Size(s[0]) <= Size(x) {
      TagsDistinctCons(x, s);
    } else {
      assert s == [s[0]] + s[1..];
      TagsDistinctCons(s[0], s[1..]);
      InsertKeepsTagsDistinct(x, s[1..]);
      TagsDistinctCons(s[0], Insert(x, s[1..]));
    }
  }

  /** The stable sort `.sort((a, b) => b.rules.length - a.rules.length)`: a
      permutation, largest sections first, and sections of equal size in their
      original relative order. */
  function SortBySize(xs: seq<Section>): (r: seq<Section>)
    ensures multiset(r) == multiset(xs)
    ensures |r| == |xs|
    ensures forall e :: e in r <==> e in xs
    ensures SortedBySize(r)
    ensures forall k :: OfSize(r, k) == OfSize(xs, k)
    ensures SumSizes(r) == SumSizes(xs)
  {
    if |xs| == 0 then []
    else
      var t := SortBySize(xs[1..]);
      assert xs == [xs[0]] + xs[1..];
      InsertSorted(xs[0], t);
      InsertSum(xs[0], t);
      SumSizesCons(xs[0], xs[1..]);
      assert forall k :: OfSize(Insert(xs[0], t), k) == OfSize(xs, k) by {
        forall k
          ensures OfSize(Insert(xs[0], t), k) == OfSize(xs, k)
        {
          InsertOfSize(xs[0], t, k);
          OfSizeCons(xs[0], t, k);
          OfSizeCons(xs[0], xs[1..], k);
        }
      }
      Insert(xs[0], t)
  }

  lemma SortedHeadIsLargest(a: seq<Section>, e: Section)
    requires SortedBySize(a) && e in a
    ensures Size(e) <= Size(a[0])
  {
    var j :| 0 <= j < |a| && a[j] == e;
    if j > 0 {
      assert Size(a[0]) >= Size(a[j]);
    }
  }

  lemma OfSizeTails(a: seq<Section>, b: seq<Section>, k: nat)
    requires |a| > 0 && |b| > 0 && a[0] == b[0]
    requires OfSize(a, k) == OfSize(b, k)
    ensures OfSize(a[1..], k) == OfSize(b[1..], k)
  {
    assert a == [a[0]] + a[1..];
    assert b == [b[0]] + b[1..];
    OfSizeCons(a[0], a[1..], k);
    OfSizeCons(b[0], b[1..], k);
    var p := if Size(a[0]) == k then [a[0]] else [];
    assert OfSize(a[1..], k) == OfSize(a, k)[|p|..];
    assert OfSize(b[1..], k) == OfSize(b, k)[|p|..];
  }

  /** A non-empty sequence's first section heads its own size class. */
  lemma HeadOfSize(a: seq<Section>)
    requires |a| > 0
    ensures |OfSize(a, Size(a[0]))| > 0 && OfSize(a, Size(a[0]))[0] == a[0]
  {
    assert a == [a[0]] + a[1..];
    OfSizeCons(a[0], a[1..], Size(a[0]));
  }

  /** When `b` is sorted and has `a`'s first size class, `b` starts no smaller. */
  lemma HeadBounded(a: seq<Section>, b: seq<Section>)
    requires |a| > 0 && |b| > 0 && SortedBySize(b)
    requires OfSize(a, Size(a[0])) == OfSize(b, Size(a[0]))
    ensures Size(a[0]) <= Size(b[0])
  {
    HeadOfSize(a);
    assert a[0] in OfSize(b, Size(a[0]));
    SortedHeadIsLargest(b, a[0]);
  }

  lemma SameHead(a: seq<Section>, b: seq<Section>)
    requires |a| > 0 && |b| > 0
    requires SortedBySize(a) && SortedBySize(b)
    requires OfSize(a, Size(a[0])) == OfSize(b, Size(a[0]))
    requires OfSize(a, Size(b[0])) == OfSize(b, Size(b[0]))
    ensures a[0] == b[0]
  {
    HeadBounded(a, b);
    HeadBounded(b, a);
    HeadOfSize(a);
    HeadOfSize(b);
  }

  lemma SortedTail(a: seq<Section>)
    requires |a| > 0 && SortedBySize(a)
    ensures SortedBySize(a[1..])
  {
    assert a == [a[0]] + a[1..];
    SortedCons(a[0], a[1..]);
  }

  /** Any two size-sorted sequences that agree on the order of each size class
      are equal: `SortBySize` is the only stable sort by decreasing size. */
  lemma {:induction false} StableSortUnique(a: seq<Section>, b: seq<Section>)
    requires SortedBySize(a) && SortedBySize(b)
    requires forall k :: OfSize(a, k) == OfSize(b, k)
    ensures a == b
    decreases |a|
  {
    if |a| > 0 {
      assert a[0] in OfSize(a, Size(a[0])) by {
        assert a == [a[0]] + a[1..];
        OfSizeCons(a[0], a[1..], Size(a[0]));
      }
      assert |b| > 0;
      SameHead(a, b);
      forall k
        ensures OfSize(a[1..], k) == OfSize(b[1..], k)
      {
        OfSizeTails(a, b, k);
      }
      SortedTail(a);
      SortedTail(b);
      StableSortUnique(a[1..], b[1..]);
      assert a == [a[0]] + a[1..];
      assert b == [b[0]] + b[1..];
    }
  }

  lemma {:induction false} SortKeepsTies(xs: seq<Section>, order: seq<string>)
    requires forall i, j | 0 <= i < j < |xs| :: Rank(order, xs[i].tag) < Rank(order, xs[j].tag)
    ensures TiesInOrder(SortBySize(xs), order)
    decreases |xs|
  {
    if |xs| > 0 {
      var t := SortBySize(xs[1..]);
      SortKeepsTies(xs[1..], order);
      forall e | e in t
        ensures Rank(order, xs[0].tag) < Rank(order, e.tag)
      {
        var m :| 0 <= m < |xs[1..]| && xs[1..][m] == e;
        assert xs[m + 1] == e;
      }
      InsertKeepsTies(xs[0], t, order);
    }
  }

  lemma {:induction false} SortKeepsTagsDistinct(xs: seq<Section>)
    requires TagsDistinct(xs)
    ensures TagsDistinct(SortBySize(xs))
    decreases |xs|
  {
    if |xs| > 0 {
      var t := SortBySize(xs[1..]);
      assert xs == [xs[0]] + xs[1..];
      TagsDistinctCons(xs[0], xs[1..]);
      SortKeepsTagsDistinct(xs[1..]);
      InsertKeepsTagsDistinct(xs[0], t);
    }
  }

  // ---------------------------------------------------------------------
  // the index

  /** `getSections`: one section per distinct tag, largest first. */
  function Sections(rules: seq<Rule>): (secs: seq<Section>)
    ensures |secs| == |Distinct(AllTags(rules))|
    ensures SortedBySize(secs)
  {
    SortBySize(Group(rules, Distinct(AllTags(rules))))
  }

  /** The sections are exactly the tags of the catalog, each listed once. */
  lemma SectionsCoverTags(rules: seq<Rule>)
    ensures forall t :: t in Tags(Sections(rules)) <==> exists i | 0 <= i < |rules| :: t in rules[i].tags
    ensures TagsDistinct(Sections(rules))
  {
    var d := Distinct(AllTags(rules));
    var g := Group(rules, d);
    assert Tags(g) == d;
    SameMembersSameTags(SortBySize(g), g);
    assert TagsDistinct(g);
    SortKeepsTagsDistinct(g);
  }

  /** Sections holding the same members carry the same tags. */
  lemma SameMembersSameTags(r: seq<Section>, g: seq<Section>)
    requires forall e :: e in r <==> e in g
    ensures forall t :: t in Tags(r) <==> t in Tags(g)
  {
    TagsOfMembers(r, g);
    TagsOfMembers(g, r);
  }

  lemma TagsOfMembers(r: seq<Section>, g: seq<Section>)
    requires forall e :: e in r ==> e in g
    ensures forall t :: t in Tags(r) ==> t in Tags(g)
  {
    forall t | t in Tags(r)
      ensures t in Tags(g)
    {
      var i :| 0 <= i < |r| && Tags(r)[i] == t;
      assert r[i] in g;
      var j :| 0 <= j < |g| && g[j] == r[i];
      assert Tags(g)[j] == t;
    }
  }

  /** Each section holds exactly the catalog rules carrying its tag, in
      catalog order, and is never empty. */
  lemma SectionsHoldTaggedRules(rules: seq<Rule>)
    ensures forall i | 0 <= i < |Sections(rules)| ::
              Sections(rules)[i].rules == RulesWithTag(rules, Sections(rules)[i].tag)
    ensures forall i | 0 <= i < |Sections(rules)| :: |Sections(rules)[i].rules| > 0
  {
    var d := Distinct(AllTags(rules));
    var g := Group(rules, d);
    var r := Sections(rules);
    forall i | 0 <= i < |r|
      ensures r[i].rules == RulesWithTag(rules, r[i].tag) && |r[i].rules| > 0
    {
      assert r[i] in g;
      var k :| 0 <= k < |g| && g[k] == r[i];
      var t := d[k];
      assert t in AllTags(rules);
      var n :| 0 <= n < |rules| && t in rules[n].tags;
      assert rules[n] in RulesWithTag(rules, t);
    }
  }
  /** Sections of equal size keep the order in which their tags first appear
      in the flattened tag list. */
  lemma SectionTiesInFirstAppearanceOrder(rules: seq<Rule>)
    ensures forall i, j | 0 <= i < j < |Sections(rules)| &&
                          Size(Sections(rules)[i]) == Size(Sections(rules)[j]) ::
              Rank(AllTags(rules), Sections(rules)[i].tag) < Rank(AllTags(rules), Sections(rules)[j].tag)
  {
    var all := AllTags(rules);
    var d := Distinct(all);
    var g := Group(rules, d);
    forall i, j | 0 <= i < j < |g|
      ensures Rank(all, g[i].tag) < Rank(all, g[j].tag)
    {
      assert g[i].tag == d[i] && g[j].tag == d[j];
    }
    SortKeepsTies(g, all);
  }

  // ---------------------------------------------------------------------
  // section sizes

  /** The number of distinct tags a rule carries. */
  function DistinctTagCount(r: Rule): nat {
    |set t | t in r.tags|
  }

  function TotalDistinctTags(rules: seq<Rule>): nat {
    if |rules| == 0 then 0 else DistinctTagCount(rules[0]) + TotalDistinctTags(rules[1..])
  }

  /** How many elements of `d` occur in `ts`. */
  function CountIn(d: seq<string>, ts: seq<string>): nat {
    if |d| == 0 then 0 else (if d[0] in ts then 1 else 0) + CountIn(d[1..], ts)
  }

  lemma {:induction false} CountInDistinct(d: seq<string>, ts: seq<string>)
    requires NoDup(d)
    ensures CountIn(d, ts) == |set t | t in d && t in ts|
    decreases |d|
  {
    if |d| > 0 {
      assert NoDup(d[1..]) by {
        forall i, j | 0 <= i < j < |d[1..]|
          ensures d[1..][i] != d[1..][j]
        {
          assert d[1..][i] == d[i + 1] && d[1..][j] == d[j + 1];
        }
      }
      CountInDistinct(d[1..], ts);
      var tail := set t | t in d[1..] && t in ts;
      var head := if d[0] in ts then {d[0]} else {};
      assert d[0] !in d[1..];
      assert (set t | t in d && t in ts) == head + tail;
      assert head !! tail;
    }
  }

  lemma {:induction false} GroupOfNoRules(d: seq<string>)
    ensures SumSizes(Group([], d)) == 0
    decreases |d|
  {
    if |d| > 0 {
      assert Group([], d) == [Group([], d)[0]] + Group([], d[1..]);
      SumSizesCons(Group([], d)[0], Group([], d[1..]));
      GroupOfNoRules(d[1..]);
    }
  }

  lemma {:induction false} GroupCons(r: Rule, rs: seq<Rule>, d: seq<string>)
    ensures SumSizes(Group([r] + rs, d)) == CountIn(d, r.tags) + SumSizes(Group(rs, d))
    decreases |d|
  {
    if |d| > 0 {
      var t := d[0];
      assert ([r] + rs)[1..] == rs;
      assert |RulesWithTag([r] + rs, t)| == (if t in r.tags then 1 else 0) + |RulesWithTag(rs, t)|;
      var g := Group([r] + rs, d);
      var h := Group(rs, d);
      assert g == [g[0]] + Group([r] + rs, d[1..]);
      assert h == [h[0]] + Group(rs, d[1..]);
      SumSizesCons(g[0], Group([r] + rs, d[1..]));
      SumSizesCons(h[0], Group(rs, d[1..]));
      GroupCons(r, rs, d[1..]);
    }
  }

  lemma {:induction false} GroupSizes(rules: seq<Rule>, d: seq<string>)
    requires NoDup(d)
    requires forall i, t | 0 <= i < |rules| && t in rules[i].tags :: t in d
    ensures SumSizes(Group(rules, d)) == TotalDistinctTags(rules)
    decreases |rules|
  {
    if |rules| == 0 {
      GroupOfNoRules(d);
    } else {
      var r := rules[0];
      assert rules == [r] + rules[1..];
      GroupCons(r, rules[1..], d);
      GroupSizes(rules[1..], d);
      CountInCovering(d, r.tags);
    }
  }

  /** When `d` lists every element of `ts` once, it counts the distinct elements of `ts`. */
  lemma CountInCovering(d: seq<string>, ts: seq<string>)
    requires NoDup(d)
    requires forall t | t in ts :: t in d
    ensures CountIn(d, ts) == |set t | t in ts|
  {
    CountInDistinct(d, ts);
    assert (set t | t in d && t in ts) == (set t | t in ts);
  }

  /** The section sizes add up to the number of (rule, distinct tag) pairs:
      a rule with n distinct tags is listed in exactly n sections. */
  lemma SectionSizesSum(rules: seq<Rule>)
    ensures SumSizes(Sections(rules)) == TotalDistinctTags(rules)
  {
    var d := Distinct(AllTags(rules));
    forall i, t | 0 <= i < |rules| && t in rules[i].tags
      ensures t in d
    {
      assert t in AllTags(rules);
    }
    GroupSizes(rules, d);
  }

  // ---------------------------------------------------------------------
  // lookups

  /** `getRuleBySlug`: the first catalog rule with that slug, if any. */
  function RuleBySlug(rules: seq<Rule>, slug: string): (r: Option<Rule>)
    ensures r.None? <==> forall i | 0 <= i < |rules| :: rules[i].slug != slug
    ensures r.Some? ==> exists i | 0 <= i < |rules| ::
              rules[i] == r.value && r.value.slug == slug &&
              forall j | 0 <= j < i :: rules[j].slug != slug
  {
    if |rules| == 0 then None
    else if rules[0].slug == slug then Some(rules[0])
    else
      var r := RuleBySlug(rules[1..], slug);
      assert forall i | 1 <= i < |rules| :: rules[i] == rules[1..][i - 1];
      r
  }

  /** `getRuleByTag`: the catalog rules carrying `tag`, in catalog order. */
  function RuleByTag(rules: seq<Rule>, tag: string): (r: seq<Rule>)
    ensures forall x :: x in r <==> x in rules && tag in x.tags
    ensures (forall i | 0 <= i < |rules| :: tag !in rules[i].tags) ==> r == []
  {
    RulesWithTag(rules, tag)
  }

  /** Looking a known tag up directly gives exactly its section's rules. */
  lemma RuleByTagMatchesSection(rules: seq<Rule>, tag: string)
    requires exists i | 0 <= i < |rules| :: tag in rules[i].tags
    ensures exists k | 0 <= k < |Sections(rules)| ::
              Sections(rules)[k].tag == tag && Sections(rules)[k].rules == RuleByTag(rules, tag)
  {
    SectionsCoverTags(rules);
    SectionsHoldTaggedRules(rules);
    var r := Sections(rules);
    assert tag in Tags(r);
    var k :| 0 <= k < |r| && Tags(r)[k] == tag;
    assert r[k].tag == tag;
  }

  /** A tag that no rule carries has no section either, so the direct
      lookup and the section list agree on it: neither lists a rule. */
  lemma RuleByTagUnknown(rules: seq<Rule>, tag: string)
    requires forall i | 0 <= i < |rules| :: tag !in rules[i].tags
    ensures tag !in Tags(Sections(rules))
    ensures RuleByTag(rules, tag) == []
  {
    SectionsCoverTags(rules);
  }

}
