/**
  The pure fragments of the chat commands: body truncation, search query
  validation, what the search command renders, and the lookup shared by the
  category commands (lore, mechanics, parts, strategy).
 */
module Commands {
  import opened Wrappers
  import opened Text
  import opened Seqs
  import opened Knowledge
  import opened Search

  /** `max_results_per_search`. */
  const MaxResultsPerSearch: nat := 5

  /** `max_content_length`. */
  const MaxContentLength: nat := 1800

  /** The body a chat message shows: cut with an ellipsis when over the limit. */
  function Truncate(content: string): (r: string)
    ensures |r| <= MaxContentLength
    ensures |content| <= MaxContentLength ==> r == content
    ensures |content| > MaxContentLength ==>
              && |r| == MaxContentLength
              && r[..MaxContentLength - 3] == content[..MaxContentLength - 3]
              && r[MaxContentLength - 3..] == "..."
  {
    if |content| > MaxContentLength then content[..MaxContentLength - 3] + "..." else content
  }

  /** The shown body starts with the input, up to the ellipsis. */
  lemma TruncateKeepsPrefix(content: string)
    ensures var r := Truncate(content);
            var n := if |r| < MaxContentLength - 3 then |r| else MaxContentLength - 3;
            r[..n] == content[..n]
  {
  }

  /** Truncating a shown body again leaves it as it is. */
  lemma TruncateIdempotent(content: string)
    ensures Truncate(Truncate(content)) == Truncate(content)
  {
  }

  /** The outcome of checking a search query. */
  datatype QueryCheck = Invalid | Valid(term: string)

  /** An empty query, or one under two characters once stripped, is refused; otherwise its strip is searched. */
  function ValidateQuery(query: string): (r: QueryCheck)
    ensures r.Invalid? <==> |Strip(query)| < 2
    ensures r.Valid? ==>
              && |r.term| >= 2
              && !IsSpace(r.term[0]) && !IsSpace(r.term[|r.term| - 1])
              && exists a :: FramedAt(r.term, query, a)
  {
    TrimFramed(query);
    if query == [] || |Strip(query)| < 2 then Invalid else Valid(Strip(query))
  }

  /** An accepted term is accepted again, unchanged. */
  lemma ValidTermIsStable(query: string)
    requires ValidateQuery(query).Valid?
    ensures ValidateQuery(ValidateQuery(query).term) == ValidateQuery(query)
  {
    StripIdempotent(query);
  }

  /** A query of only whitespace is refused. */
  lemma BlankQueryInvalid(query: string)
    requires forall i :: 0 <= i < |query| ==> IsSpace(query[i])
    ensures ValidateQuery(query) == Invalid
  {
    StripAllSpace(query);
  }

  /** What the search command sends. */
  datatype Reply =
    | InvalidSearch
    | NoResults
    | Results(shown: seq<Entry>, summary: bool)

  /**
    The search command: validate, search the stripped query, render at most
    `max_results_per_search` results and add a summary when there were more.
   */
  function SearchReply(kb: KnowledgeBase, query: string): (r: Reply)
    ensures r.InvalidSearch? <==> |Strip(query)| < 2
    ensures r.NoResults? ==> SearchData(kb, Strip(query)) == []
    ensures r.Results? ==>
              && r.shown == SearchData(kb, Strip(query))
              && 1 <= |r.shown| <= MaxResultsPerSearch
              && Subseq(r.shown, SearchOrder(kb))
              && !r.summary
  {
    match ValidateQuery(query)
    case Invalid => InvalidSearch
    case Valid(term) =>
      var results := SearchData(kb, term);
      if results == [] then NoResults
      else Results(Take(results, MaxResultsPerSearch), |results| > MaxResultsPerSearch)
  }

  // ---------------------------------------------------------------------
  // Category commands
  // ---------------------------------------------------------------------

  /** The record a category command builds from a matching entry. */
  datatype Shown = Shown(key: string, title: string, content: string)

  /** What a category command sends. */
  datatype TopicReply =
    | Overview(titles: seq<string>)
    | Found(shown: Shown)
    | NotFound
    | Failed

  /** The entry has the `title` and `content` keys the command reads. */
  predicate Readable(v: Entry)
  {
    v.title.Some? && v.content.Some?
  }

  /** Every entry of the table is readable. */
  predicate AllReadable(t: Table)
  {
    forall i :: 0 <= i < |t| ==> Readable(t[i].entry)
  }

  /** `topic.lower() in title.lower() or topic.lower() in content.lower()`. */
  predicate TopicHit(topic: string, v: Entry)
  {
    && Readable(v)
    && (Contains(Lower(topic), Lower(v.title.value)) || Contains(Lower(topic), Lower(v.content.value)))
  }

  function ShowOf(it: Item): Shown
    requires Readable(it.entry)
  {
    Shown(it.key, it.entry.title.value, it.entry.content.value)
  }

  /** Entry `i` is the first of the table the topic hits. */
  ghost predicate FirstHit(topic: string, t: Table, i: int)
  {
    && 0 <= i < |t|
    && TopicHit(topic, t[i].entry)
    && forall j :: 0 <= j < i ==> !TopicHit(topic, t[j].entry)
  }

  /**
    The filter loop of a category command: `None` when an entry lacks a
    key it reads (the lookup raises), else the matching entries in order.
   */
  function FilterTopic(topic: string, t: Table): (r: Option<seq<Shown>>)
    ensures r.None? <==> !AllReadable(t)
    ensures r.Some? ==> (r.value == [] <==> forall i :: 0 <= i < |t| ==> !TopicHit(topic, t[i].entry))
    decreases |t|
  {
    if t == [] then Some([])
    else
      var prefix := t[..|t| - 1];
      var it := t[|t| - 1];
      var rest := FilterTopic(topic, prefix);
      assert forall i :: 0 <= i < |prefix| ==> prefix[i] == t[i];
      if rest.None? then None
      else if !Readable(it.entry) then None
      else if TopicHit(topic, it.entry) then
        Some(rest.value + [ShowOf(it)])
      else
        rest
  }

  /** The first filtered record is that of the first matching entry. */
  lemma {:induction false} FilterTopicFirst(topic: string, t: Table)
    requires FilterTopic(topic, t).Some? && FilterTopic(topic, t).value != []
    ensures exists i :: FirstHit(topic, t, i) && FilterTopic(topic, t).value[0] == ShowOf(t[i])
    decreases |t|
  {
    var prefix := t[..|t| - 1];
    var rest := FilterTopic(topic, prefix).value;
    assert forall i :: 0 <= i < |prefix| ==> prefix[i] == t[i];
    if rest != [] {
      FilterTopicFirst(topic, prefix);
      var i :| FirstHit(topic, prefix, i) && rest[0] == ShowOf(prefix[i]);
      assert FirstHit(topic, t, i);
      assert FilterTopic(topic, t).value[0] == rest[0];
    } else {
      assert FirstHit(topic, t, |t| - 1);
    }
  }

  /** The filter keeps exactly the matching entries. */
  lemma {:induction false} FilterTopicMembers(topic: string, t: Table)
    requires AllReadable(t)
    ensures FilterTopic(topic, t).Some?
    ensures forall i :: 0 <= i < |t| && TopicHit(topic, t[i].entry) ==> ShowOf(t[i]) in FilterTopic(topic, t).value
    ensures forall s :: s in FilterTopic(topic, t).value ==>
              exists i :: 0 <= i < |t| && TopicHit(topic, t[i].entry) && s == ShowOf(t[i])
    decreases |t|
  {
    if t != [] {
      var prefix := t[..|t| - 1];
      assert AllReadable(prefix) by {
        forall i | 0 <= i < |prefix| ensures Readable(prefix[i].entry) {
          assert prefix[i] == t[i];
        }
      }
      FilterTopicMembers(topic, prefix);
      var acc := FilterTopic(topic, prefix).value;
      forall i | 0 <= i < |t| && TopicHit(topic, t[i].entry)
        ensures ShowOf(t[i]) in FilterTopic(topic, t).value
      {
        if i < |t| - 1 {
          assert prefix[i] == t[i];
        }
      }
      forall s | s in FilterTopic(topic, t).value
        ensures exists i :: 0 <= i < |t| && TopicHit(topic, t[i].entry) && s == ShowOf(t[i])
      {
        if s in acc {
          var i :| 0 <= i < |prefix| && TopicHit(topic, prefix[i].entry) && s == ShowOf(prefix[i]);
          assert prefix[i] == t[i];
        } else {
          assert s == ShowOf(t[|t| - 1]);
        }
      }
    }
  }

  /** The items of the table the topic hits, in table order. */
  function TopicHits(topic: string, t: Table): (r: Table)
    ensures forall it :: it in r ==> Readable(it.entry)
  {
    Filter((it: Item) => TopicHit(topic, it.entry), t)
  }

  /** The records built from readable items, one per item, in order. */
  function ShowAll(ts: Table): (r: seq<Shown>)
    requires forall it :: it in ts ==> Readable(it.entry)
    ensures |r| == |ts|
    ensures forall i :: 0 <= i < |ts| ==> r[i] == ShowOf(ts[i])
  {
    if ts == [] then []
    else
      var init := ts[..|ts| - 1];
      assert forall it :: it in init ==> it in ts;
      ShowAll(init) + [ShowOf(ts[|ts| - 1])]
  }

  /**
    On a readable table the filter loop builds one record per matching
    entry, in table order, and nothing else.
   */
  lemma {:induction false} FilterTopicIsFilter(topic: string, t: Table)
    requires AllReadable(t)
    ensures FilterTopic(topic, t) == Some(ShowAll(TopicHits(topic, t)))
    decreases |t|
  {
    if t != [] {
      var prefix := t[..|t| - 1];
      var it := t[|t| - 1];
      assert AllReadable(prefix) by {
        forall i | 0 <= i < |prefix| ensures Readable(prefix[i].entry) {
          assert prefix[i] == t[i];
        }
      }
      FilterTopicIsFilter(topic, prefix);
      var hits := TopicHits(topic, prefix);
      if TopicHit(topic, it.entry) {
        assert TopicHits(topic, t) == hits + [it];
        assert (hits + [it])[..|hits|] == hits;
      } else {
        assert TopicHits(topic, t) == hits;
      }
    }
  }

  /** The titles listed when no topic is given: `None` when an entry has no title. */
  function Titles(t: Table): (r: Option<seq<string>>)
    ensures r.None? <==> exists i :: 0 <= i < |t| && t[i].entry.title.None?
    ensures r.Some? ==> |r.value| == |t| && forall i :: 0 <= i < |t| ==> r.value[i] == t[i].entry.title.value
  {
    if t == [] then Some([])
    else match (t[0].entry.title, Titles(t[1..]))
      case (Some(title), Some(rest)) => Some([title] + rest)
      case _ => None
  }

  /**
    A category command on table `t`: with no topic (or an empty one) the
    list of titles; otherwise the first matching entry, "not found", or a
    failure when an entry lacks a key the command reads.
   */
  function TopicLookup(topic: string, t: Table): (r: TopicReply)
    ensures r.Overview? <==> topic == [] && forall i :: 0 <= i < |t| ==> t[i].entry.title.Some?
    ensures r.Overview? ==> |r.titles| == |t| && forall i :: 0 <= i < |t| ==> r.titles[i] == t[i].entry.title.value
    ensures r.Found? ==> exists i :: FirstHit(topic, t, i) && r.shown == ShowOf(t[i])
    ensures r.NotFound? <==> topic != [] && AllReadable(t) && forall i :: 0 <= i < |t| ==> !TopicHit(topic, t[i].entry)
    ensures r.Found? ==> topic != []
    ensures topic != [] ==> (r.Failed? <==> !AllReadable(t))
    ensures topic == [] ==> (r.Failed? <==> exists i :: 0 <= i < |t| && t[i].entry.title.None?)
  {
    if topic == [] then
      match Titles(t)
      case Some(titles) => Overview(titles)
      case None => Failed
    else
      match FilterTopic(topic, t)
      case None => Failed
      case Some(results) =>
        if results == [] then NotFound
        else
          FilterTopicFirst(topic, t);
          Found(results[0])
  }

  /** A topic hitting no entry of a readable table is reported as not found, and one that does is found. */
  lemma TopicFoundIffHit(topic: string, t: Table)
    requires topic != [] && AllReadable(t)
    ensures TopicLookup(topic, t).Found? <==> exists i :: 0 <= i < |t| && TopicHit(topic, t[i].entry)
  {
  }
}
