# Chromehounds knowledge-base search, modelled in Dafny

The Chromehounds information plugin answers chat queries about the game
from a static knowledge base: module-level dictionaries of entries (lore,
role types, equipment, combat systems, nations, ...), each entry a
dictionary with a `title`, a `content` or `description`, and auxiliary
fields. This project models the keyword lookup over that knowledge base
(`search_chromehounds_data`, `QUICK_REFERENCES`, `get_quick_suggestions`)
and the pure fragments of the chat commands that use it (body truncation,
query validation, result rendering limits, and the per-category topic
filter), and proves what they return.

Modules:

- `Text` (text.dfy): ASCII `lower()`, the string `in` operator as a left
  scan with a reference definition of substring occurrence, and `strip()`
  over Python's whitespace set.
- `Seqs` (seqs.dfy): subsequence, distinctness, filter and `s[:n]`.
- `Knowledge` (knowledge.dfy): fields, entries (auxiliary fields as a
  key-to-field map), keyed tables, the
  thirteen category tables, the `search_spaces` visiting order and the
  `str()` flattening of list fields.
- `Search` and `SearchExamples` (search.dfy): the substring pass, the
  keyword fallback, the five-result cap, the quick suggestions, and
  concrete instances.
- `Commands` (commands.dfy): the command fragments.

There is no scoring anywhere in the code: the order of results is the
order in which entries are visited, the twelve tables of `search_spaces`
one after another, each in key insertion order. The development table is
not among them. The model reproduces that order and proves that results
are a subsequence of it.

The substring pass is modelled as the loop it is (`Search.Collect`): per
entry the title/content/description `elif` chain appends the entry, then
the loop over all fields appends it if a string- or list-valued field holds
the query and an equal entry is not already collected. "Equal" is Python's
dictionary equality: same keys, same values, key order playing no part.
The model keeps the auxiliary fields of an entry as a map from key to
field, so equality of `Entry` values is exactly that test. Whether some field
of an entry holds the query does not depend on the order of its keys.
The pass's meaning is given independently by `Search.Relevant`. The pass
is proved to collect every relevant entry and nothing else, on any
knowledge base. When no two entries are equal, it is also proved to equal
the filter of the visiting order by relevance. Equal entries matched by the
title, content or description test are collected once per occurrence, so
that equation needs the hypothesis.

## Model

| member | source | states |
|---|---|---|
| Text.Lower | data.py:1037 | lower-casing keeps the length and lower-cases each character |
| Text.LowerIdempotent | data.py:1062-1073 | lower-casing an already lower-cased string changes nothing, so the lower-cased query and fields can be lower-cased again |
| Text.ContainsIffOccurs | data.py:1062-1074 | the `in` test used for every match holds exactly when the query occurs at some position of the text |
| Text.Strip | chromehounds.py:141 | the stripped query is a slice of the query with only whitespace cut from both ends, and starts and ends with a non-space |
| Text.StripIdempotent | chromehounds.py:151 | stripping the stripped query changes nothing |
| Knowledge.SearchOrder | data.py:1041-1057 | the visiting order holds the values of the twelve `search_spaces` tables, as many entries as they hold together, starting with the lore table and ending with the mechanics table |
| Knowledge.ElementInFlatten | data.py:1071-1073 | every element of a list field appears in the list's flattened text |
| Search.HitIffRelevant | data.py:1060-1075 | the title/content/description chain or the field loop fires exactly when the query occurs in a lower-cased title, content, description or string/list field, and the chain firing implies the loop would too |
| Search.Collect | data.py:1057-1075 | the substring pass returns a subsequence of the visiting order, every returned entry fires the title/content/description chain or the field loop, and the result is empty exactly when no entry fires either |
| Search.CollectSound | data.py:1057-1075 | on any knowledge base, equal entries or not, every collected entry contains the query in a searched field, every entry that does is collected, and the pass is empty exactly when no entry does |
| Search.CollectIsFilter | data.py:1057-1075 | on a knowledge base without equal entries, the pass keeps exactly the entries containing the query, in visiting order |
| Search.Fallback | data.py:1078-1086 | the keyword loop adds either nothing or every titled entry in visiting order, and adds something only when some group has a keyword inside the query |
| Search.FallbackSpec | data.py:1078-1086 | the keyword fallback adds every titled entry, once, when some keyword of some group lies inside the query, and nothing otherwise |
| Search.SearchData | data.py:1026-1088 | at most five results, always a subsequence of the entries in `search_spaces` order |
| Search.SearchReturnsMatches | data.py:1057-1088 | when some entry contains the query, the result is the first five of the substring pass and every result contains the query |
| Search.SearchIsFirstFiveRelevant | data.py:1041-1088 | on a knowledge base without equal entries and with a match, the result is the first five matching entries in visiting order |
| Search.SearchFallsBack | data.py:1078-1088 | when no entry contains the query, the result is the first five titled entries if a quick-reference keyword lies inside the query, else empty |
| Search.SearchNoDuplicates | data.py:1059-1075 | on a knowledge base without equal entries no entry is returned twice |
| Search.SearchIgnoresCase | data.py:1037 | a query and its lower-cased form give the same result |
| Search.CollectEmptyQuery | data.py:1062-1063 | with every entry titled, the empty query collects every entry |
| Search.SearchEmptyQuery | data.py:1062-1088 | with every entry titled, the empty query returns the first five entries in visiting order |
| Search.DevelopmentNeverSearched | data.py:1041-1054 | the development table, absent from `search_spaces`, never changes a result |
| Search.NestedFieldsNeverSearched | data.py:1070-1071 | what a dictionary-valued field holds never decides whether an entry matches |
| Search.ListElementFound | data.py:1071-1074 | a query inside one element of a list field matches the entry |
| Search.QuickSuggestions | data.py:1101-1136 | the suggestion list takes no input and is thirty non-empty strings from "HOUND types and roles" to "Technology development" |
| SearchExamples.KeywordInsideQueryTriggers | data.py:1079-1080 | a query holding the keyword "sniper" triggers the fallback |
| SearchExamples.QueryInsideKeywordDoesNotTrigger | data.py:1079-1080 | "snip", inside the keyword "sniper" but holding no keyword, does not trigger the fallback |
| SearchExamples.EqualEntriesBothReturned | data.py:1062-1063 | two equal entries under different keys, both matched by the title test, are both returned |
| SearchExamples.DifferentKeysBothReturned | data.py:1070-1075 | two entries that differ only in the name of the auxiliary key holding the query are unequal dictionaries, so the field loop returns both |
| SearchExamples.EqualEntriesMatchedByFieldOnce | data.py:1070-1075 | two equal entries matched only by the field loop are returned once, because `value not in results` finds the first |
| Commands.Truncate | chromehounds.py:110-112 | a body over 1800 characters becomes its first 1797 followed by "...", exactly 1800 long; a shorter body is unchanged |
| Commands.TruncateKeepsPrefix | chromehounds.py:110-112 | the shown body starts with the input up to the ellipsis |
| Commands.TruncateIdempotent | chromehounds.py:110-112 | a shown body is short enough to be shown unchanged |
| Commands.ValidateQuery | chromehounds.py:141-151 | a query is refused exactly when its strip is shorter than two characters, and an accepted term is at least two characters with no surrounding whitespace, cut from the query |
| Commands.ValidTermIsStable | chromehounds.py:141-151 | an accepted term is accepted again unchanged |
| Commands.BlankQueryInvalid | chromehounds.py:141 | an empty or all-whitespace query is refused |
| Commands.SearchReply | chromehounds.py:141-198 | refusal exactly for short queries; otherwise the rendered results are all of the search's results on the stripped query, one to five of them, in visiting order, and the "showing N of M" summary never appears |
| Commands.FilterTopic | chromehounds.py:222-229 | the category filter fails exactly when an entry lacks `title` or `content`, and is otherwise empty exactly when no entry's lower-cased title or content holds the lower-cased topic |
| Commands.FilterTopicFirst | chromehounds.py:222-235 | the first filtered record is built from the first matching entry of the table |
| Commands.FilterTopicMembers | chromehounds.py:222-229 | the filter keeps a record for every matching entry and for no other |
| Commands.FilterTopicIsFilter | chromehounds.py:222-229 | on a readable table the filter builds exactly one `{key, title, content}` record per matching entry, in table order |
| Commands.Titles | chromehounds.py:246 | the topic overview lists every title in table order, failing when an entry has none |
| Commands.TopicLookup | chromehounds.py:220-248 | no topic gives the overview, and fails exactly when some entry has no title; a topic fails exactly when some entry lacks a title or content, even if an earlier entry matched; otherwise the first matching entry is shown, or "not found" exactly when none matches |
| Commands.TopicFoundIffHit | chromehounds.py:231-243 | on a readable table a topic is found exactly when some entry matches it |

## Left out

- Chat-platform plumbing: embeds, interactions, `defer`/`followup.send`, the `asyncio.sleep` pause between messages, command registration in `setup`/`teardown`, the help text and logging. These are I/O and framework code.
- Thumbnail URLs, colour maps and footers. They are presentation constants only.
- `__init__.py`, which only re-exports the plugin class.
- The authored lore text. Any knowledge base of the same shape can be searched; only the table order of `search_spaces` and the field shape are kept.
- Lower-casing is modelled on ASCII letters only; Python's Unicode `lower()` also maps other letters.
- The `str()` of a list field is modelled as `[` + `'a', 'b'` + `]`. Python's repr switches to double quotes for elements holding a single quote and escapes backslashes and control characters; that is not modelled.
- Top-level table values that are not dictionaries, field values that are neither strings, lists of strings nor dictionaries, and list elements that are not strings. None occurs in the data, so the model has no such values.
- Commands.SearchReply: models the command's evident flow, not its failures as written. The model follows the `data.py` definitions.
- Commands.SearchReply: `chromehounds.py` imports `PARTS_DATA` and `STRATEGY_DATA`, which `data.py` does not define (chromehounds.py:13). That `ImportError` is raised when the plugin module is imported, outside every `try`, so the plugin never loads and no command runs at all, the search, lore and mechanics commands included.
- Commands.SearchReply: with no results it calls `get_quick_suggestions` with an argument the definition does not take (chromehounds.py:155), a `TypeError` inside the `try`, so the `except` branch sends the error message.
- Commands.SearchReply: with results it reads `result["category"]` (chromehounds.py:176). No entry in `data.py` has a `category` key, so every non-empty result raises a `KeyError` and the `except` branch sends the error message; `result["content"]` (chromehounds.py:179) would fail the same way for entries with only a description.
- Commands.SearchReply: the suggestions attached to a "no results" reply are not modelled; `Search.QuickSuggestions` models the list itself.
- Commands.TopicLookup: one function models the lore, mechanics, parts and strategy commands over any table. The parts and strategy commands name tables that do not exist, and because of the failed import at chromehounds.py:13 none of these commands runs as written, lore and mechanics included.
- Search.SearchNoDuplicates: holds only for knowledge bases without two equal entries. The title branch appends without checking for an earlier equal entry, as `SearchExamples.EqualEntriesBothReturned` shows.
- Knowledge.SearchOrder: its contract names the total length and the first (lore) and last (mechanics) tables; the order of the ten tables between them is fixed by its definition but not restated in the contract, because the per-table layout proof was too expensive for the solver.
- Search.QuickSuggestions: its contract names the count, the first and last strings and non-emptiness, not each of the thirty strings.
- Scored ranking, tie-breaks by category and key, a count of matches beyond five, a search restricted to a group of categories, a query-filtered suggestion list and knowledge-base validation at load time do not exist in this code, so the model has none of them.
