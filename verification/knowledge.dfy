/**
  The shape of the static knowledge base: category tables of keyed entries,
  each entry a record with an optional title, content and description and
  further auxiliary fields. The authored lore text itself is not modelled;
  any knowledge base of this shape can be searched.
 */
module Knowledge {
  import opened Wrappers
  import Text

  /**
    An auxiliary field of an entry: a string, a list of strings, or a
    nested dictionary (in the data, a role's `equipment` or a part's
    `types`).
   */
  datatype Field =
    | Str(text: string)
    | Items(items: seq<string>)
    | Nested(inner: map<string, Field>)

  /** The keys of an entry that the search reads by name. */
  const PrimaryKeys: set<string> := {"title", "content", "description"}

  /** The auxiliary fields of an entry, by key: every key other than the primary ones. */
  type Extras = m: map<string, Field> | PrimaryKeys !! m.Keys witness map[]

  /**
    One entry dictionary: the three primary keys (absent keys are `None`)
    and the auxiliary fields. Two entries are equal exactly when the
    dictionaries are equal in Python, key order playing no part.
   */
  datatype Entry = Entry(
    title: Option<string>,
    content: Option<string>,
    description: Option<string>,
    extra: Extras)

  /** A dictionary key and its entry. */
  datatype Item = Item(key: string, entry: Entry)

  /** A category dictionary, in key insertion order. */
  type Table = seq<Item>

  /** The module-level category dictionaries of the data file. */
  datatype KnowledgeBase = KnowledgeBase(
    lore: Table,
    development: Table,
    roles: Table,
    equipment: Table,
    combat: Table,
    mechanics: Table,
    nations: Table,
    organizations: Table,
    history: Table,
    communication: Table,
    online: Table,
    technical: Table,
    legacy: Table)

  /** The values of a table, in key order. */
  function Values(t: Table): (r: seq<Entry>)
    ensures |r| == |t|
    ensures forall i :: 0 <= i < |t| ==> r[i] == t[i].entry
  {
    if t == [] then [] else [t[0].entry] + Values(t[1..])
  }

  /**
    Every entry the search visits, in visiting order: the twelve tables of
    `search_spaces` (lore, roles, equipment, combat, nations, organizations,
    history, communication, online, technical, legacy, mechanics), each in
    key order. The development table is not among them.
   */
  function SearchOrder(kb: KnowledgeBase): (r: seq<Entry>)
    ensures |r| == |kb.lore| + |kb.roles| + |kb.equipment| + |kb.combat|
                   + |kb.nations| + |kb.organizations| + |kb.history|
                   + |kb.communication| + |kb.online| + |kb.technical|
                   + |kb.legacy| + |kb.mechanics|
    ensures r[..|kb.lore|] == Values(kb.lore)
    ensures r[|r| - |kb.mechanics|..] == Values(kb.mechanics)
  {
    var first := Values(kb.lore);
    var middle := Values(kb.roles) + Values(kb.equipment)
      + Values(kb.combat) + Values(kb.nations) + Values(kb.organizations)
      + Values(kb.history) + Values(kb.communication) + Values(kb.online)
      + Values(kb.technical) + Values(kb.legacy);
    var last := Values(kb.mechanics);
    assert (first + middle + last)[..|first|] == first;
    assert (first + middle + last)[|first| + |middle|..] == last;
    first + middle + last
  }

  /** `repr(s)`, which `str(list)` uses for a string element: single-quoted. */
  function Quote(s: string): string
  {
    "'" + s + "'"
  }

  /** The inside of `str(xs)`: quoted elements separated by ", ". */
  function JoinQuoted(xs: seq<string>): (r: string)
    ensures xs == [] <==> r == []
  {
    if xs == [] then ""
    else if |xs| == 1 then Quote(xs[0])
    else Quote(xs[0]) + ", " + JoinQuoted(xs[1..])
  }

  /** The text a field is searched as: a string itself, a list as `str(list)`. */
  function Flatten(f: Field): string
    requires !f.Nested?
  {
    match f
    case Str(s) => s
    case Items(xs) => "[" + JoinQuoted(xs) + "]"
  }

  /** Every element of a list appears in its flattened form. */
  lemma {:induction false} ElementInFlatten(xs: seq<string>, i: nat)
    requires i < |xs|
    ensures Text.Occurs(xs[i], Flatten(Items(xs)))
  {
    var k := ElementInJoin(xs, i);
    var f := Flatten(Items(xs));
    assert f[k + 1..k + 1 + |xs[i]|] == JoinQuoted(xs)[k..k + |xs[i]|];
    assert Text.OccursAt(xs[i], f, k + 1);
  }

  /** A lower-cased list element occurs in the lower-cased flattened list. */
  lemma LowerElementInFlatten(xs: seq<string>, j: nat)
    requires j < |xs|
    ensures Text.Occurs(Text.Lower(xs[j]), Text.Lower(Flatten(Items(xs))))
  {
    var f := Flatten(Items(xs));
    ElementInFlatten(xs, j);
    var k :| Text.OccursAt(xs[j], f, k);
    Text.LowerSlice(f, k, k + |xs[j]|);
    assert Text.OccursAt(Text.Lower(xs[j]), Text.Lower(f), k);
  }

  lemma {:induction false} ElementInJoin(xs: seq<string>, i: nat) returns (k: nat)
    requires i < |xs|
    ensures k + |xs[i]| <= |JoinQuoted(xs)|
    ensures JoinQuoted(xs)[k..k + |xs[i]|] == xs[i]
    decreases |xs|
  {
    var head := Quote(xs[0]);
    if i == 0 {
      k := 1;
      assert JoinQuoted(xs)[..|head|] == head;
      assert head[1..1 + |xs[0]|] == xs[0];
    } else {
      var k' := ElementInJoin(xs[1..], i - 1);
      var prefix := head + ", ";
      var tail := JoinQuoted(xs[1..]);
      assert xs[1..][i - 1] == xs[i];
      assert JoinQuoted(xs) == prefix + tail;
      k := |prefix| + k';
      forall p | k <= p < k + |xs[i]|
        ensures JoinQuoted(xs)[p] == tail[p - |prefix|]
      {
      }
      assert JoinQuoted(xs)[k..k + |xs[i]|] == tail[k'..k' + |xs[i]|];
    }
  }
}
