/**
  The user's own rules, kept as one list keyed by slug. Each operation takes
  the stored list and returns the list to store back.
 */
module CustomRules {
  import opened Options
  import opened Rules

  /** What reading the store yields: an entry never written reads as empty. */
  function Stored(entry: Option<seq<Rule>>): (rs: seq<Rule>)
    ensures entry.None? ==> rs == []
    ensures entry.Some? ==> rs == entry.value
  {
    entry.GetOr([])
  }

  predicate HasSlug(rs: seq<Rule>, slug: string) {
    exists i | 0 <= i < |rs| :: rs[i].slug == slug
  }

  /** No two stored rules share a slug. */
  predicate UniqueSlugs(rs: seq<Rule>) {
    forall i, j | 0 <= i < j < |rs| :: rs[i].slug != rs[j].slug
  }

  /** `findIndex` on the slug: the first position holding it, if any. */
  function FindSlug(rs: seq<Rule>, slug: string): (r: Option<nat>)
    ensures r.Some? ==> r.value < |rs| && rs[r.value].slug == slug
    ensures r.Some? ==> forall j | 0 <= j < r.value :: rs[j].slug != slug
    ensures r.None? <==> !HasSlug(rs, slug)
  {
    if |rs| == 0 then None
    else if rs[0].slug == slug then Some(0)
    else
      match FindSlug(rs[1..], slug)
      case None => None
      case Some(k) => Some(k + 1)
  }

  lemma FindSlugAt(rs: seq<Rule>, slug: string, i: nat)
    requires i < |rs| && rs[i].slug == slug
    requires forall j | 0 <= j < i :: rs[j].slug != slug
    ensures FindSlug(rs, slug) == Some(i)
  {
  }

  // ---------------------------------------------------------------------
  // save

  /** Replaces the first rule with the same slug, or appends when there is none. */
  function Save(rs: seq<Rule>, rule: Rule): (r: seq<Rule>)
    ensures HasSlug(rs, rule.slug) ==>
              var i := FindSlug(rs, rule.slug).value;
              |r| == |rs| && r[i] == rule &&
              forall j | 0 <= j < |rs| && j != i :: r[j] == rs[j]
    ensures !HasSlug(rs, rule.slug) ==>
              |r| == |rs| + 1 && r[|rs|] == rule && r[..|rs|] == rs
  {
    match FindSlug(rs, rule.slug)
    case Some(i) => rs[i := rule]
    case None => rs + [rule]
  }

  /** After a save, looking the slug up finds the saved rule. */
  lemma SaveThenFind(rs: seq<Rule>, rule: Rule)
    ensures var r := Save(rs, rule);
            FindSlug(r, rule.slug).Some? && r[FindSlug(r, rule.slug).value] == rule
  {
    var r := Save(rs, rule);
    match FindSlug(rs, rule.slug)
    case Some(i) =>
      FindSlugAt(r, rule.slug, i);
    case None =>
      FindSlugAt(r, rule.slug, |rs|);
  }

  /** Saving the same rule again changes nothing. */
  lemma SaveTwice(rs: seq<Rule>, rule: Rule)
    ensures Save(Save(rs, rule), rule) == Save(rs, rule)
  {
    var r := Save(rs, rule);
    SaveThenFind(rs, rule);
    var i := FindSlug(r, rule.slug).value;
    assert r[i := rule] == r;
  }

  /** Saving keeps slugs unique. */
  lemma SaveKeepsUnique(rs: seq<Rule>, rule: Rule)
    requires UniqueSlugs(rs)
    ensures UniqueSlugs(Save(rs, rule))
  {
  }

  // ---------------------------------------------------------------------
  // delete

  /** Every rule with the slug removed, the others kept in order. */
  function Delete(rs: seq<Rule>, slug: string): (r: seq<Rule>)
    ensures forall x :: x in r <==> x in rs && x.slug != slug
    ensures |r| <= |rs|
    ensures !HasSlug(rs, slug) ==> r == rs
  {
    if |rs| == 0 then []
    else if rs[0].slug == slug then Delete(rs[1..], slug)
    else
      assert !HasSlug(rs, slug) ==> !HasSlug(rs[1..], slug) by {
        if !HasSlug(rs, slug) {
          assert forall i | 0 <= i < |rs[1..]| :: rs[1..][i] == rs[i + 1];
        }
      }
      assert rs == [rs[0]] + rs[1..];
      [rs[0]] + Delete(rs[1..], slug)
  }

  /** Deleting from a concatenation deletes from each part: the survivors
      keep their relative order. */
  lemma {:induction false} DeleteAppend(a: seq<Rule>, b: seq<Rule>, slug: string)
    ensures Delete(a + b, slug) == Delete(a, slug) + Delete(b, slug)
    decreases |a|
  {
    if |a| == 0 {
      assert a + b == b;
    } else {
      assert (a + b)[1..] == a[1..] + b;
      DeleteAppend(a[1..], b, slug);
    }
  }

  /** Deleting twice deletes once. */
  lemma DeleteIdempotent(rs: seq<Rule>, slug: string)
    ensures Delete(Delete(rs, slug), slug) == Delete(rs, slug)
  {
  }

  /** Deleting a rule just saved under a new slug restores the list. */
  lemma DeleteUndoesSave(rs: seq<Rule>, rule: Rule)
    requires !HasSlug(rs, rule.slug)
    ensures Delete(Save(rs, rule), rule.slug) == rs
  {
    DeleteAppend(rs, [rule], rule.slug);
    assert Delete([rule], rule.slug) == [];
  }

  /** Deleting keeps slugs unique. */
  lemma {:induction false} DeleteKeepsUnique(rs: seq<Rule>, slug: string)
    requires UniqueSlugs(rs)
    ensures UniqueSlugs(Delete(rs, slug))
  {
    if |rs| > 0 {
      DeleteKeepsUnique(rs[1..], slug);
      var t := Delete(rs[1..], slug);
      assert forall x | x in t :: x in rs[1..];
    }
  }

  // ---------------------------------------------------------------------
  // edit

  /** A partial rule: each present field replaces the stored one. */
  datatype RulePatch = RulePatch(
    title: Option<string>,
    slug: Option<string>,
    content: Option<string>,
    tags: Option<seq<string>>,
    author: Option<Author>)

  /** Object spread of the patch over the rule. */
  function Apply(rule: Rule, p: RulePatch): (r: Rule)
    ensures r.title == (if p.title.Some? then p.title.value else rule.title)
    ensures r.slug == (if p.slug.Some? then p.slug.value else rule.slug)
    ensures r.content == (if p.content.Some? then p.content.value else rule.content)
    ensures r.tags == (if p.tags.Some? then p.tags.value else rule.tags)
    ensures r.author == (if p.author.Some? then p.author.value else rule.author)
  {
    Rule(p.title.GetOr(rule.title), p.slug.GetOr(rule.slug), p.content.GetOr(rule.content),
         p.tags.GetOr(rule.tags), p.author.GetOr(rule.author))
  }

  /** The list to store after an edit, or `None` when no rule has the slug
      and nothing is written. */
  function Edit(rs: seq<Rule>, slug: string, p: RulePatch): (r: Option<seq<Rule>>)
    ensures r.Some? <==> HasSlug(rs, slug)
    ensures r.Some? ==>
              var i := FindSlug(rs, slug).value;
              |r.value| == |rs| && r.value[i] == Apply(rs[i], p) &&
              forall j | 0 <= j < |rs| && j != i :: r.value[j] == rs[j]
  {
    match FindSlug(rs, slug)
    case None => None
    case Some(i) => Some(rs[i := Apply(rs[i], p)])
  }

  /** A patch that carries no field leaves the list as it is. */
  lemma EditEmptyPatch(rs: seq<Rule>, slug: string)
    requires HasSlug(rs, slug)
    ensures Edit(rs, slug, RulePatch(None, None, None, None, None)) == Some(rs)
  {
    var i := FindSlug(rs, slug).value;
    assert rs[i := Apply(rs[i], RulePatch(None, None, None, None, None))] == rs;
  }

  /** An edit that does not touch the slug keeps slugs unique. */
  lemma EditKeepsUnique(rs: seq<Rule>, slug: string, p: RulePatch)
    requires UniqueSlugs(rs) && HasSlug(rs, slug) && p.slug.None?
    ensures UniqueSlugs(Edit(rs, slug, p).value)
  {
  }

  /** An edit may rename the rule: the edited entry now answers to the new slug. */
  lemma EditRenames(rs: seq<Rule>, slug: string, p: RulePatch)
    requires HasSlug(rs, slug) && p.slug.Some?
    ensures var i := FindSlug(rs, slug).value;
            Edit(rs, slug, p).value[i].slug == p.slug.value
  {
  }
}
