/**
  The keyword lookup of the data file: a case-insensitive substring pass
  over every entry in `search_spaces` order, a keyword fallback when that
  pass finds nothing, and a cap of five results. There is no scoring:
  the result order is the visiting order.
 */
module Search {
  import opened Wrappers
  import opened Text
  import opened Seqs
  import opened Knowledge

  /** `results[:5]` at the end of the search. */
  const MaxResults: nat := 5

  // ---------------------------------------------------------------------
  // The substring pass, as written
  // ---------------------------------------------------------------------

  /** `query in value[name].lower()` for an optional string field. */
  predicate FieldTextHit(q: string, field: Option<string>)
  {
    field.Some? && Contains(q, Lower(field.value))
  }

  /** The title / content / description `elif` chain. */
  predicate PrimaryHit(q: string, v: Entry)
  {
    FieldTextHit(q, v.title) || FieldTextHit(q, v.content) || FieldTextHit(q, v.description)
  }

  /** A string- or list-valued field whose `str()` form, lower-cased, holds the query. */
  predicate FieldHit(q: string, f: Field)
  {
    !f.Nested? && Contains(q, Lower(Flatten(f)))
  }

  /**
    The loop over `value.items()`: title, content and description are
    strings and are tested again, then every auxiliary field. Whether some
    item hits does not depend on the order of the items.
   */
  predicate NestedHit(q: string, v: Entry)
  {
    || (v.title.Some? && FieldHit(q, Str(v.title.value)))
    || (v.content.Some? && FieldHit(q, Str(v.content.value)))
    || (v.description.Some? && FieldHit(q, Str(v.description.value)))
    || exists k :: k in v.extra && FieldHit(q, v.extra[k])
  }

  /**
    One iteration of the inner loop: the `elif` chain, then the field pass
    guarded by `value not in results`, which compares dictionaries and so
    compares `Entry` values.
   */
  function Step(q: string, acc: seq<Entry>, v: Entry): seq<Entry>
  {
    var afterPrimary := if PrimaryHit(q, v) then acc + [v] else acc;
    if NestedHit(q, v) && v !in afterPrimary then afterPrimary + [v] else afterPrimary
  }

  // ---------------------------------------------------------------------
  // The reference meaning of a match
  // ---------------------------------------------------------------------

  /**
    The query occurs in the lower-cased title, content or description, or
    in the lower-cased `str()` of a string- or list-valued auxiliary field.
    Nested (dictionary-valued) fields play no part.
   */
  ghost predicate Relevant(q: string, v: Entry)
  {
    || (v.title.Some? && Occurs(q, Lower(v.title.value)))
    || (v.content.Some? && Occurs(q, Lower(v.content.value)))
    || (v.description.Some? && Occurs(q, Lower(v.description.value)))
    || ExtraRelevant(q, v)
  }

  /** A field hit is an occurrence in the field's lower-cased text. */
  lemma FieldHitIffOccurs(q: string, f: Field)
    ensures FieldHit(q, f) <==> !f.Nested? && Occurs(q, Lower(Flatten(f)))
  {
    if !f.Nested? {
      ContainsIffOccurs(q, Lower(Flatten(f)));
    }
  }

  /** A primary hit is an occurrence in the title, content or description. */
  lemma PrimaryHitIffOccurs(q: string, v: Entry)
    ensures PrimaryHit(q, v) <==>
      || (v.title.Some? && Occurs(q, Lower(v.title.value)))
      || (v.content.Some? && Occurs(q, Lower(v.content.value)))
      || (v.description.Some? && Occurs(q, Lower(v.description.value)))
  {
    if v.title.Some? { ContainsIffOccurs(q, Lower(v.title.value)); }
    if v.content.Some? { ContainsIffOccurs(q, Lower(v.content.value)); }
    if v.description.Some? { ContainsIffOccurs(q, Lower(v.description.value)); }
  }

  /** Some auxiliary field other than a dictionary holds the query. */
  ghost predicate ExtraRelevant(q: string, v: Entry)
  {
    exists k :: k in v.extra && !v.extra[k].Nested? && Occurs(q, Lower(Flatten(v.extra[k])))
  }

  /** A hit in an auxiliary field is a reference hit there. */
  lemma ExtraFieldHit(q: string, v: Entry, k: string)
    requires k in v.extra && FieldHit(q, v.extra[k])
    ensures ExtraRelevant(q, v)
  {
    ContainsIffOccurs(q, Lower(Flatten(v.extra[k])));
  }

  /** A field-loop hit is in the title, content, description or a non-dictionary field. */
  lemma NestedHitSound(q: string, v: Entry)
    requires NestedHit(q, v)
    ensures PrimaryHit(q, v) || ExtraRelevant(q, v)
  {
    if exists k :: k in v.extra && FieldHit(q, v.extra[k]) {
      var k :| k in v.extra && FieldHit(q, v.extra[k]);
      ExtraFieldHit(q, v, k);
    } else if v.title.Some? && FieldHit(q, Str(v.title.value)) {
      assert FieldTextHit(q, v.title);
    } else if v.content.Some? && FieldHit(q, Str(v.content.value)) {
      assert FieldTextHit(q, v.content);
    } else {
      assert FieldTextHit(q, v.description);
    }
  }

  /** A hit in the title, content, description or a non-dictionary field is a field-loop hit. */
  lemma NestedHitComplete(q: string, v: Entry)
    requires PrimaryHit(q, v) || ExtraRelevant(q, v)
    ensures NestedHit(q, v)
  {
    if !PrimaryHit(q, v) {
      var k :| k in v.extra && !v.extra[k].Nested? && Occurs(q, Lower(Flatten(v.extra[k])));
      FieldHitIffOccurs(q, v.extra[k]);
    }
  }

  /** The field loop finds the query exactly where the reference looks for it. */
  lemma NestedHitIffOccurs(q: string, v: Entry)
    ensures NestedHit(q, v) <==> PrimaryHit(q, v) || ExtraRelevant(q, v)
  {
    if NestedHit(q, v) {
      NestedHitSound(q, v);
    }
    if PrimaryHit(q, v) || ExtraRelevant(q, v) {
      NestedHitComplete(q, v);
    }
  }

  /** The two tests of the loop body together decide exactly relevance. */
  lemma HitIffRelevant(q: string, v: Entry)
    ensures Hit(q, v) <==> Relevant(q, v)
    ensures PrimaryHit(q, v) ==> NestedHit(q, v)
  {
    PrimaryHitIffOccurs(q, v);
    NestedHitIffOccurs(q, v);
  }

  /** Either test of the loop body fires. */
  predicate Hit(q: string, v: Entry)
  {
    PrimaryHit(q, v) || NestedHit(q, v)
  }

  /** One step appends the entry at most once, and only when a test fires. */
  lemma StepHits(q: string, acc: seq<Entry>, v: Entry)
    ensures Step(q, acc, v) == acc || Step(q, acc, v) == acc + [v]
    ensures Step(q, acc, v) != acc ==> Hit(q, v)
    ensures Hit(q, v) ==> Step(q, acc, v) != []
  {
  }

  /** A step keeps the accumulator a subsequence of the entries visited. */
  lemma StepSubseq(q: string, acc: seq<Entry>, prefix: seq<Entry>, v: Entry)
    requires Subseq(acc, prefix)
    ensures Subseq(Step(q, acc, v), prefix + [v])
  {
    StepHits(q, acc, v);
    SubseqExtend(acc, prefix, v);
    var r := Step(q, acc, v);
    if r != acc {
      assert r[..|r| - 1] == acc;
      assert (prefix + [v])[..|prefix|] == prefix;
    }
  }

  /** A step keeps every collected entry a hit, and empty exactly while nothing hit. */
  lemma StepKeepsHits(q: string, acc: seq<Entry>, prefix: seq<Entry>, v: Entry)
    requires forall x :: x in acc ==> Hit(q, x)
    requires acc == [] <==> forall x :: x in prefix ==> !Hit(q, x)
    ensures forall x :: x in Step(q, acc, v) ==> Hit(q, x)
    ensures Step(q, acc, v) == [] <==> forall x :: x in prefix + [v] ==> !Hit(q, x)
  {
    StepHits(q, acc, v);
    assert forall x :: x in prefix + [v] ==> x in prefix || x == v;
  }

  /**
    The substring pass over `es`, visited left to right: the loop of the
    data file with `results` as the accumulator.
   */
  function Collect(q: string, es: seq<Entry>): (r: seq<Entry>)
    ensures Subseq(r, es)
    ensures forall x :: x in r ==> Hit(q, x)
    ensures r == [] <==> forall x :: x in es ==> !Hit(q, x)
    decreases |es|
  {
    if es == [] then []
    else
      var prefix := es[..|es| - 1];
      var v := es[|es| - 1];
      var acc := Collect(q, prefix);
      assert prefix + [v] == es;
      StepSubseq(q, acc, prefix, v);
      StepKeepsHits(q, acc, prefix, v);
      Step(q, acc, v)
  }

  /** A step keeps every earlier hit and adds the entry when a test fires on it. */
  lemma StepComplete(q: string, acc: seq<Entry>, prefix: seq<Entry>, v: Entry)
    requires forall x :: x in prefix && Hit(q, x) ==> x in acc
    ensures forall x :: x in prefix + [v] && Hit(q, x) ==> x in Step(q, acc, v)
  {
    StepHits(q, acc, v);
    assert forall x :: x in prefix + [v] ==> x in prefix || x == v;
  }

  /** The step over the last entry of `es`, from an accumulator holding every earlier hit. */
  lemma StepCompleteOn(q: string, es: seq<Entry>, acc: seq<Entry>, r: seq<Entry>)
    requires es != []
    requires forall x :: x in es[..|es| - 1] && Hit(q, x) ==> x in acc
    requires r == Step(q, acc, es[|es| - 1])
    ensures forall x :: x in es && Hit(q, x) ==> x in r
  {
    assert es[..|es| - 1] + [es[|es| - 1]] == es;
    StepComplete(q, acc, es[..|es| - 1], es[|es| - 1]);
  }

  /** Every entry a test fires on is collected. */
  lemma {:induction false} CollectHitsComplete(q: string, es: seq<Entry>)
    ensures forall x :: x in es && Hit(q, x) ==> x in Collect(q, es)
    decreases |es|
  {
    if es != [] {
      CollectHitsComplete(q, es[..|es| - 1]);
      CollectLast(q, es);
      StepCompleteOn(q, es, Collect(q, es[..|es| - 1]), Collect(q, es));
    }
  }

  /**
    Every relevant entry is collected, equal entries or not: either the
    `elif` chain appends it or `value not in results` finds it already there.
   */
  lemma CollectComplete(q: string, es: seq<Entry>)
    ensures forall x :: x in es && Relevant(q, x) ==> x in Collect(q, es)
  {
    CollectHitsComplete(q, es);
    forall x | x in es && Relevant(q, x)
      ensures x in Collect(q, es)
    {
      HitIffRelevant(q, x);
    }
  }

  /**
    Every collected entry contains the query, and the pass is empty
    exactly when no entry does.
   */
  lemma {:induction false} CollectSound(q: string, es: seq<Entry>)
    ensures forall x :: x in Collect(q, es) ==> Relevant(q, x)
    ensures forall x :: x in es && Relevant(q, x) ==> x in Collect(q, es)
    ensures Collect(q, es) == [] <==> forall x :: x in es ==> !Relevant(q, x)
    decreases |es|
  {
    CollectComplete(q, es);
    if es != [] {
      var prefix := es[..|es| - 1];
      var v := es[|es| - 1];
      CollectSound(q, prefix);
      HitIffRelevant(q, v);
      assert prefix + [v] == es;
      forall x | x in es && x != v
        ensures x in prefix
      {
        var k :| 0 <= k < |es| && es[k] == x;
        assert k < |prefix| && prefix[k] == x;
      }
    }
  }

  /**
    On a knowledge base without two equal entries, the pass is exactly the
    filter of the visiting order by relevance.
   */
  lemma {:induction false} CollectIsFilter(q: string, es: seq<Entry>)
    requires Distinct(es)
    ensures Collect(q, es) == Filter(x => Relevant(q, x), es)
    decreases |es|
  {
    if es != [] {
      var prefix := es[..|es| - 1];
      var v := es[|es| - 1];
      assert Distinct(prefix);
      CollectIsFilter(q, prefix);
      CollectSound(q, prefix);
      HitIffRelevant(q, v);
      assert v !in prefix;
      assert v !in Collect(q, prefix);
    }
  }

  // ---------------------------------------------------------------------
  // The keyword fallback
  // ---------------------------------------------------------------------

  /** `QUICK_REFERENCES`: keyword groups in their authored order. */
  const QuickReferences: seq<(string, seq<string>)> := [
    ("factions", ["morskoj", "sal kar", "tarakia", "republic", "federation", "kingdom"]),
    ("parts", ["legs", "weapons", "arms", "torso", "cockpit", "generator", "radar"]),
    ("weapons", ["rifle", "cannon", "missile", "sniper", "shotgun", "machine gun", "howitzer", "mortar"]),
    ("tactics", ["strategy", "combat", "positioning", "teamwork", "coordination"]),
    ("builds", ["sniper", "assault", "support", "scout", "artillery", "construction"]),
    ("history", ["rafzekael", "cerberus", "neroimus", "alternate history", "timeline"]),
    ("mechanics", ["construction", "combat", "damage", "communication", "role types"])
  ]

  /** `any(keyword.lower() in query for keyword in keywords)`. */
  predicate KeywordIn(keywords: seq<string>, q: string)
  {
    exists i :: 0 <= i < |keywords| && Contains(Lower(keywords[i]), q)
  }

  /** Some group has a keyword inside the query. */
  predicate Triggered(groups: seq<(string, seq<string>)>, q: string)
  {
    exists i :: 0 <= i < |groups| && KeywordIn(groups[i].1, q)
  }

  /** The entries that have a title, in visiting order. */
  function Titled(es: seq<Entry>): seq<Entry>
  {
    Filter((v: Entry) => v.title.Some?, es)
  }

  /**
    The fallback loop over keyword groups: the first group with a keyword
    inside the query adds every titled entry, then the loop breaks.
   */
  function Fallback(groups: seq<(string, seq<string>)>, q: string, es: seq<Entry>): (r: seq<Entry>)
    ensures r == [] || r == Titled(es)
    ensures r != [] ==> Triggered(groups, q)
    decreases |groups|
  {
    if groups == [] then []
    else if KeywordIn(groups[0].1, q) then Titled(es)
    else Fallback(groups[1..], q, es)
  }

  /**
    The fallback adds the titled entries once if any keyword of any group
    is inside the query, and nothing otherwise.
   */
  lemma {:induction false} FallbackSpec(groups: seq<(string, seq<string>)>, q: string, es: seq<Entry>)
    ensures Fallback(groups, q, es) == (if Triggered(groups, q) then Titled(es) else [])
    decreases |groups|
  {
    if groups != [] && !KeywordIn(groups[0].1, q) {
      FallbackSpec(groups[1..], q, es);
      if Triggered(groups, q) {
        var i :| 0 <= i < |groups| && KeywordIn(groups[i].1, q);
        assert groups[1..][i - 1] == groups[i];
      }
      if Triggered(groups[1..], q) {
        var i :| 0 <= i < |groups[1..]| && KeywordIn(groups[1..][i].1, q);
        assert groups[i + 1] == groups[1..][i];
      }
    }
  }

  // ---------------------------------------------------------------------
  // The search
  // ---------------------------------------------------------------------

  /** The result list before the cut: the pass, or the fallback when the pass is empty. */
  function PassOrFallback(q: string, es: seq<Entry>): (r: seq<Entry>)
    ensures Subseq(r, es)
  {
    var hits := Collect(q, es);
    FallbackSpec(QuickReferences, q, es);
    FilterSubseq((v: Entry) => v.title.Some?, es);
    if hits != [] then hits else Fallback(QuickReferences, q, es)
  }

  /** `search_chromehounds_data(query)`. */
  function SearchData(kb: KnowledgeBase, query: string): (r: seq<Entry>)
    ensures |r| <= MaxResults
    ensures Subseq(r, SearchOrder(kb))
  {
    var found := PassOrFallback(Lower(query), SearchOrder(kb));
    SubseqPrefix(found, SearchOrder(kb), |Take(found, MaxResults)|);
    Take(found, MaxResults)
  }

  /** The search is the cut of the pass (or fallback) over the lower-cased query. */
  lemma SearchDataSteps(kb: KnowledgeBase, query: string)
    ensures SearchData(kb, query) == Take(PassOrFallback(Lower(query), SearchOrder(kb)), MaxResults)
  {
  }

  /**
    When some entry matches, only matching entries are returned: the first
    five of the pass.
   */
  lemma SearchReturnsMatches(kb: KnowledgeBase, query: string)
    requires exists x :: x in SearchOrder(kb) && Relevant(Lower(query), x)
    ensures SearchData(kb, query) == Take(Collect(Lower(query), SearchOrder(kb)), MaxResults)
    ensures forall x :: x in SearchData(kb, query) ==> Relevant(Lower(query), x)
  {
    var hits := Collect(Lower(query), SearchOrder(kb));
    CollectSound(Lower(query), SearchOrder(kb));
    SubseqReflexive(hits);
    SubseqPrefix(hits, hits, |Take(hits, MaxResults)|);
    SubseqMembers(Take(hits, MaxResults), hits);
  }

  /**
    On a knowledge base without two equal entries, the result is the first
    five relevant entries in visiting order.
   */
  lemma SearchIsFirstFiveRelevant(kb: KnowledgeBase, query: string)
    requires Distinct(SearchOrder(kb))
    requires exists x :: x in SearchOrder(kb) && Relevant(Lower(query), x)
    ensures SearchData(kb, query)
            == Take(Filter(x => Relevant(Lower(query), x), SearchOrder(kb)), MaxResults)
  {
    CollectIsFilter(Lower(query), SearchOrder(kb));
  }

  /**
    When nothing matches, the result is the first five titled entries if a
    quick-reference keyword lies inside the query, and empty otherwise.
   */
  lemma SearchFallsBack(kb: KnowledgeBase, query: string)
    requires forall x :: x in SearchOrder(kb) ==> !Relevant(Lower(query), x)
    ensures SearchData(kb, query)
            == if Triggered(QuickReferences, Lower(query))
               then Take(Titled(SearchOrder(kb)), MaxResults)
               else []
  {
    CollectSound(Lower(query), SearchOrder(kb));
    FallbackSpec(QuickReferences, Lower(query), SearchOrder(kb));
  }

  /** The same entry is never returned twice, given distinct entries. */
  lemma SearchNoDuplicates(kb: KnowledgeBase, query: string)
    requires Distinct(SearchOrder(kb))
    ensures Distinct(SearchData(kb, query))
  {
    SubseqDistinct(SearchData(kb, query), SearchOrder(kb));
  }

  /** Only the lower-cased query matters. */
  lemma SearchIgnoresCase(kb: KnowledgeBase, query: string)
    ensures SearchData(kb, query) == SearchData(kb, Lower(query))
  {
    LowerIdempotent(query);
  }

  /** An entry hit by the `elif` chain is appended once. */
  lemma StepPrimary(q: string, acc: seq<Entry>, v: Entry)
    requires PrimaryHit(q, v)
    ensures Step(q, acc, v) == acc + [v]
  {
    assert v in acc + [v];
  }

  /** The pass over a non-empty sequence is one step after the pass over all but the last. */
  lemma CollectLast(q: string, es: seq<Entry>)
    requires es != []
    ensures Collect(q, es) == Step(q, Collect(q, es[..|es| - 1]), es[|es| - 1])
  {
  }

  /** The empty query is in every title. */
  lemma EmptyQueryHitsTitle(v: Entry)
    requires v.title.Some?
    ensures PrimaryHit("", v)
  {
    assert StartsWith("", Lower(v.title.value));
  }

  /** With the empty query, a titled last entry is appended to the rest. */
  lemma EmptyQueryStep(acc: seq<Entry>, es: seq<Entry>)
    requires es != [] && acc == es[..|es| - 1] && es[|es| - 1].title.Some?
    ensures Step("", acc, es[|es| - 1]) == es
  {
    EmptyQueryHitsTitle(es[|es| - 1]);
    StepPrimary("", acc, es[|es| - 1]);
    assert acc + [es[|es| - 1]] == es;
  }

  /** The pass keeps every entry when each has a title and the query is empty. */
  lemma {:induction false} CollectEmptyQuery(es: seq<Entry>)
    requires forall i :: 0 <= i < |es| ==> es[i].title.Some?
    ensures Collect("", es) == es
    decreases |es|
  {
    if es != [] {
      var prefix := es[..|es| - 1];
      assert forall i :: 0 <= i < |prefix| ==> prefix[i] == es[i];
      CollectEmptyQuery(prefix);
      CollectLast("", es);
      EmptyQueryStep(prefix, es);
    }
  }

  /** An empty query returns the first five entries in visiting order. */
  lemma SearchEmptyQuery(kb: KnowledgeBase)
    requires forall x :: x in SearchOrder(kb) ==> x.title.Some?
    ensures SearchData(kb, "") == Take(SearchOrder(kb), MaxResults)
  {
    var es := SearchOrder(kb);
    assert forall i :: 0 <= i < |es| ==> es[i] in es;
    CollectEmptyQuery(es);
    if es == [] {
      assert SearchData(kb, "") == [];
    }
  }

  /** The development table is not in `search_spaces` and never affects a search. */
  lemma DevelopmentNeverSearched(kb: KnowledgeBase, t: Table, query: string)
    ensures SearchData(kb.(development := t), query) == SearchData(kb, query)
  {
  }

  /** Replacing what a dictionary-valued field holds never changes whether an entry matches. */
  lemma NestedFieldsNeverSearched(q: string, v: Entry, key: string, inner: map<string, Field>)
    requires key in v.extra && v.extra[key].Nested?
    ensures var w := v.(extra := v.extra[key := Nested(inner)]);
            Relevant(q, v) <==> Relevant(q, w)
  {
    var w := v.(extra := v.extra[key := Nested(inner)]);
    assert w.extra.Keys == v.extra.Keys;
    if ExtraRelevant(q, v) {
      var k :| k in v.extra && !v.extra[k].Nested? && Occurs(q, Lower(Flatten(v.extra[k])));
      assert w.extra[k] == v.extra[k];
    }
    if ExtraRelevant(q, w) {
      var k :| k in w.extra && !w.extra[k].Nested? && Occurs(q, Lower(Flatten(w.extra[k])));
      assert w.extra[k] == v.extra[k];
    }
  }

  /** A query found inside one element of a list field finds the entry. */
  lemma ListElementFound(q: string, v: Entry, key: string, j: nat)
    requires key in v.extra && v.extra[key].Items? && j < |v.extra[key].items|
    requires Occurs(q, Lower(v.extra[key].items[j]))
    ensures Relevant(q, v)
  {
    var xs := v.extra[key].items;
    LowerElementInFlatten(xs, j);
    OccursTransitive(q, Lower(xs[j]), Lower(Flatten(Items(xs))));
    assert v.extra[key] == Items(xs);
    assert ExtraRelevant(q, v);
  }


  // ---------------------------------------------------------------------
  // Quick suggestions
  // ---------------------------------------------------------------------

  /** `get_quick_suggestions()`: the authored list, independent of any query. */
  function QuickSuggestions(): (r: seq<string>)
    ensures |r| == 30
    ensures forall i :: 0 <= i < |r| ==> r[i] != []
    ensures r[0] == "HOUND types and roles" && r[29] == "Technology development"
  {
    [ "HOUND types and roles",
      "Weapons and equipment",
      "Game mechanics",
      "Online features",
      "Nation backgrounds",
      "Combat tactics",
      "Customization options",
      "COMBAS system",
      "Communication features",
      "Territory control",
      "Weapon types",
      "Combat ranges",
      "Damage system",
      "Targeting mechanics",
      "Nation equipment",
      "Manufacturers",
      "Communication systems",
      "Squad mechanics",
      "Role types",
      "Movement systems",
      "Equipment types",
      "Generator systems",
      "Support features",
      "Combat roles",
      "Chassis types",
      "Nation histories",
      "Political background",
      "Military organizations",
      "Historical events",
      "Technology development" ]
  }
}

/** Concrete instances of the search's behaviour on small knowledge bases. */
module SearchExamples {
  import opened Wrappers
  import opened Text
  import opened Knowledge
  import opened Seqs
  import opened Search

  /** "my sniper" holds the keyword "sniper", so it triggers the fallback. */
  lemma KeywordInsideQueryTriggers()
    ensures Triggered(QuickReferences, "my sniper")
  {
    var weapons := QuickReferences[2].1;
    assert weapons[3] == "sniper";
    LowerNoUpper("sniper");
    assert StartsWith("sniper", "my sniper"[3..]);
    assert Contains("sniper", "my sniper"[3..]);
    assert KeywordIn(weapons, "my sniper");
  }

  /**
    The test runs only one way: "snip" lies inside the keyword "sniper"
    yet no keyword lies inside "snip", so it does not trigger.
   */
  lemma QueryInsideKeywordDoesNotTrigger()
    ensures !Triggered(QuickReferences, "snip")
  {
    var g := QuickReferences;
    GroupMissesSnip(g[0].1);
    GroupMissesSnip(g[1].1);
    GroupMissesSnip(g[2].1);
    GroupMissesSnip(g[3].1);
    GroupMissesSnip(g[4].1);
    GroupMissesSnip(g[5].1);
    GroupMissesSnip(g[6].1);
  }

  lemma GroupMissesSnip(ks: seq<string>)
    requires forall j :: 0 <= j < |ks| ==> |ks[j]| > 4 || ks[j] == "legs" || ks[j] == "arms"
    ensures !KeywordIn(ks, "snip")
  {
    forall j | 0 <= j < |ks|
      ensures !Contains(Lower(ks[j]), "snip")
    {
      var k := Lower(ks[j]);
      if |ks[j]| > 4 {
        LongerNotContained(k, "snip");
      } else {
        assert k[0] == LowerChar(ks[j][0]);
        assert !StartsWith(k, "snip");
        LongerNotContained(k, "snip"[1..]);
      }
    }
  }

  /** A knowledge base whose lore table holds the given items and nothing else. */
  function LoreOnly(items: Table): KnowledgeBase
  {
    KnowledgeBase(items, [], [], [], [], [], [], [], [], [], [], [], [])
  }

  /**
    The title branch appends without checking for an equal earlier entry,
    so two equal entries under different keys are both returned.
   */
  lemma EqualEntriesBothReturned()
    ensures var e := Entry(Some("Sniper"), None, None, map[]);
            SearchData(LoreOnly([Item("a", e), Item("b", e)]), "") == [e, e]
  {
    var e := Entry(Some("Sniper"), None, None, map[]);
    var kb := LoreOnly([Item("a", e), Item("b", e)]);
    assert SearchOrder(kb) == [e, e];
    SearchEmptyQuery(kb);
  }

  /** A lore entry whose list field `key` holds the single string "foo". */
  function FooUnder(key: string): Entry
    requires key !in PrimaryKeys
  {
    Entry(Some("X"), None, None, map[key := Items(["foo"])])
  }

  /** "foo" is not in the title "X" and is in the flattened list `['foo']`. */
  lemma FooHitsOnlyTheList(key: string)
    requires key !in PrimaryKeys
    ensures !PrimaryHit("foo", FooUnder(key)) && NestedHit("foo", FooUnder(key))
  {
    var v := FooUnder(key);
    assert Lower("X") == "x";
    assert Lower(Flatten(Items(["foo"]))) == "['foo']";
    assert StartsWith("foo", "['foo']"[2..]);
    assert Contains("foo", "['foo']"[2..]);
    assert Contains("foo", "['foo']"[1..]);
    assert FieldHit("foo", v.extra[key]);
  }

  /** One step of the pass on an entry hit only by the field loop. */
  lemma StepFieldOnly(acc: seq<Entry>, key: string)
    requires key !in PrimaryKeys
    ensures Step("foo", acc, FooUnder(key))
            == if FooUnder(key) in acc then acc else acc + [FooUnder(key)]
  {
    FooHitsOnlyTheList(key);
  }

  /** Searching a lore-only knowledge base for "foo" searches the lore values. */
  lemma SearchLoreFoo(items: Table)
    ensures SearchData(LoreOnly(items), "foo") == Take(PassOrFallback("foo", Values(items)), MaxResults)
  {
    var kb := LoreOnly(items);
    SearchDataSteps(kb, "foo");
    LoreOnlyOrder(items);
    LowerNoUpper("foo");
  }

  /** A lore-only knowledge base visits exactly the lore values. */
  lemma LoreOnlyOrder(items: Table)
    ensures SearchOrder(LoreOnly(items)) == Values(items)
  {
    var none: Table := [];
    assert Values(none) == [];
  }

  /**
    Entries that differ only in the name of an auxiliary key are different
    dictionaries, so the field pass returns both.
   */
  lemma DifferentKeysBothReturned()
    ensures SearchData(LoreOnly([Item("a", FooUnder("tags")), Item("b", FooUnder("aliases"))]), "foo")
            == [FooUnder("tags"), FooUnder("aliases")]
  {
    var x, y := FooUnder("tags"), FooUnder("aliases");
    assert "tags" in x.extra && "tags" !in y.extra;
    var items := [Item("a", x), Item("b", y)];
    assert Values(items) == [x, y];
    CollectLast("foo", [x]);
    StepFieldOnly([], "tags");
    assert Collect("foo", [x]) == [x];
    CollectLast("foo", [x, y]);
    assert [x, y][..1] == [x];
    StepFieldOnly([x], "aliases");
    assert Collect("foo", [x, y]) == [x, y];
    SearchLoreFoo(items);
  }

  /**
    Two equal entries matched only by the field pass are returned once:
    `value not in results` finds the first.
   */
  lemma EqualEntriesMatchedByFieldOnce()
    ensures SearchData(LoreOnly([Item("a", FooUnder("tags")), Item("b", FooUnder("tags"))]), "foo")
            == [FooUnder("tags")]
  {
    var x := FooUnder("tags");
    var items := [Item("a", x), Item("b", x)];
    assert Values(items) == [x, x];
    CollectLast("foo", [x]);
    StepFieldOnly([], "tags");
    assert Collect("foo", [x]) == [x];
    CollectLast("foo", [x, x]);
    assert [x, x][..1] == [x];
    StepFieldOnly([x], "tags");
    assert Collect("foo", [x, x]) == [x];
    SearchLoreFoo(items);
  }
}
