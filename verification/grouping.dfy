/**
 * `groupedShortcuts`: the filtered shortcuts gathered into one list per
 * category, keyed by the category.
 *
 * The front end builds the record with `reduce` over a plain object
 * literal, testing `!acc[category]` before it creates a group. A plain
 * object inherits the members of `Object.prototype`, so for a category
 * spelled like one of them the test sees the inherited member (truthy), no
 * group is created, and the `push` that follows fails on it. `GroupedAsWritten`
 * models that fold; `GroupByCategory` builds the intended map, and the rest
 * of the model uses it.
 */
module Grouping {
  import opened Wrappers
  import opened Shortcuts

  type Groups = map<string, seq<Shortcut>>

  // ---------------------------------------------------------------------
  // The intended grouping
  // ---------------------------------------------------------------------

  /** The categories that occur in the list. */
  function Categories(list: seq<Shortcut>): set<string> {
    set s | s in list :: s.category
  }

  /** The entries of one category, in their order. */
  function OfCategory(list: seq<Shortcut>, c: string): (r: seq<Shortcut>)
    ensures |r| <= |list|
  {
    if list == [] then []
    else
      var last := list[|list| - 1];
      OfCategory(list[..|list| - 1], c) + (if last.category == c then [last] else [])
  }

  /** One group per category that occurs, holding that category's entries in order. */
  function GroupsOf(list: seq<Shortcut>): Groups {
    map c | c in Categories(list) :: OfCategory(list, c)
  }

  /** The group a category has so far, empty when it has none. */
  function GroupOrEmpty(g: Groups, c: string): seq<Shortcut> {
    if c in g then g[c] else []
  }

  /** One step of the grouping: the shortcut goes at the end of its category's group. */
  function AddToGroup(g: Groups, s: Shortcut): Groups {
    g[s.category := GroupOrEmpty(g, s.category) + [s]]
  }

  /** A category's list holds exactly the entries of that category. */
  lemma {:induction false} OfCategoryMembers(list: seq<Shortcut>, c: string)
    ensures forall s :: s in OfCategory(list, c) <==> s in list && s.category == c
  {
    if list != [] {
      var init, last := list[..|list| - 1], list[|list| - 1];
      OfCategoryMembers(init, c);
      assert list == init + [last];
    }
  }

  lemma OfCategoryAbsent(list: seq<Shortcut>, c: string)
    requires c !in Categories(list)
    ensures OfCategory(list, c) == []
  {
    OfCategoryMembers(list, c);
  }

  lemma OfCategorySnoc(list: seq<Shortcut>, s: Shortcut, c: string)
    ensures OfCategory(list + [s], c) == OfCategory(list, c) + (if s.category == c then [s] else [])
  {
    var l2 := list + [s];
    assert l2[..|l2| - 1] == list;
  }

  lemma CategoriesSnoc(list: seq<Shortcut>, s: Shortcut)
    ensures Categories(list + [s]) == Categories(list) + {s.category}
  {
    var l2 := list + [s];
    forall x | x in Categories(l2)
      ensures x in Categories(list) + {s.category}
    {
      var t :| t in l2 && t.category == x;
    }
    assert s in l2;
  }

  lemma GroupsSnocAt(list: seq<Shortcut>, s: Shortcut, c: string)
    requires c in Categories(list) || c == s.category
    ensures c in GroupsOf(list + [s]) && c in AddToGroup(GroupsOf(list), s)
    ensures GroupsOf(list + [s])[c] == AddToGroup(GroupsOf(list), s)[c]
  {
    CategoriesSnoc(list, s);
    OfCategorySnoc(list, s, c);
    if c == s.category && c !in Categories(list) {
      OfCategoryAbsent(list, c);
    }
  }

  /** Grouping one more shortcut adds it at the end of its category's group and changes no other group. */
  lemma GroupsSnoc(list: seq<Shortcut>, s: Shortcut)
    ensures GroupsOf(list + [s]) == AddToGroup(GroupsOf(list), s)
  {
    var g, h := GroupsOf(list + [s]), AddToGroup(GroupsOf(list), s);
    assert g.Keys == h.Keys by {
      CategoriesSnoc(list, s);
    }
    forall c | c in g.Keys
      ensures g[c] == h[c]
    {
      GroupsSnocAt(list, s, c);
    }
  }

  /**
   * The grouping as a loop over the list with a map accumulator: the intended
   * behaviour of the `reduce`, for every category text.
   */
  method GroupByCategory(list: seq<Shortcut>) returns (groups: Groups)
    ensures groups == GroupsOf(list)
  {
    groups := map[];
    var i := 0;
    while i < |list|
      invariant 0 <= i <= |list|
      invariant groups == GroupsOf(list[..i])
    {
      var s := list[i];
      assert list[..i + 1] == list[..i] + [s];
      GroupsSnoc(list[..i], s);
      groups := groups[s.category := GroupOrEmpty(groups, s.category) + [s]];
      i := i + 1;
    }
    assert list[..i] == list;
  }

  // ---------------------------------------------------------------------
  // Properties of the grouping
  // ---------------------------------------------------------------------

  /**
   * Every shortcut lies in the group keyed by its category and in no other;
   * every group is non-empty.
   */
  lemma GroupsPartition(list: seq<Shortcut>)
    ensures forall s :: s in list ==> s.category in GroupsOf(list) && s in GroupsOf(list)[s.category]
    ensures forall c, s :: c in GroupsOf(list) && s in GroupsOf(list)[c] ==> s.category == c && s in list
    ensures forall c :: c in GroupsOf(list) ==> GroupsOf(list)[c] != []
  {
    forall c | c in GroupsOf(list)
      ensures forall s :: s in GroupsOf(list)[c] <==> s in list && s.category == c
      ensures GroupsOf(list)[c] != []
    {
      OfCategoryMembers(list, c);
      var s :| s in list && s.category == c;
      assert s in OfCategory(list, c);
    }
  }

  /** The group of a category keeps the order: grouping a concatenation appends the parts' groups. */
  lemma {:induction false} OfCategoryAppend(a: seq<Shortcut>, b: seq<Shortcut>, c: string)
    ensures OfCategory(a + b, c) == OfCategory(a, c) + OfCategory(b, c)
    decreases |b|
  {
    if b == [] {
      assert a + b == a;
    } else {
      var init, last := b[..|b| - 1], b[|b| - 1];
      assert b == init + [last];
      assert a + b == (a + init) + [last];
      OfCategoryAppend(a, init, c);
      OfCategorySnoc(a + init, last, c);
      OfCategorySnoc(init, last, c);
    }
  }

  /** The sum of the sizes of the groups named in `cs`. */
  function SizeSum(g: Groups, cs: seq<string>): nat
    requires forall k :: 0 <= k < |cs| ==> cs[k] in g
  {
    if cs == [] then 0 else |g[cs[0]]| + SizeSum(g, cs[1..])
  }

  /** How many times `c` occurs in `cs`. */
  function Occurrences(cs: seq<string>, c: string): nat {
    if cs == [] then 0 else (if cs[0] == c then 1 else 0) + Occurrences(cs[1..], c)
  }

  predicate Distinct(cs: seq<string>) {
    forall i, j :: 0 <= i < j < |cs| ==> cs[i] != cs[j]
  }

  lemma {:induction false} OccursOnce(cs: seq<string>, c: string)
    requires Distinct(cs)
    ensures Occurrences(cs, c) == if c in cs then 1 else 0
  {
    if cs != [] {
      OccursOnce(cs[1..], c);
      if cs[0] == c {
        assert c !in cs[1..] by {
          forall k | 0 <= k < |cs[1..]|
            ensures cs[1..][k] != c
          {
            assert cs[1..][k] == cs[k + 1];
          }
        }
      }
    }
  }

  /** The summed sizes of the groups of `cs` grow by one per occurrence of a new shortcut's category in `cs`. */
  lemma {:induction false} SizeSumSnoc(list: seq<Shortcut>, s: Shortcut, cs: seq<string>)
    ensures SumOfCategories(list + [s], cs) == SumOfCategories(list, cs) + Occurrences(cs, s.category)
  {
    if cs != [] {
      SizeSumSnoc(list, s, cs[1..]);
      var l2 := list + [s];
      assert l2[..|l2| - 1] == list;
    }
  }

  /** The summed sizes of the category lists of `cs`. */
  function SumOfCategories(list: seq<Shortcut>, cs: seq<string>): nat {
    if cs == [] then 0 else |OfCategory(list, cs[0])| + SumOfCategories(list, cs[1..])
  }

  /** Over a list of distinct categories that covers the list, the category sizes add up to the list's length. */
  lemma {:induction false} SumOfCategoriesCovers(list: seq<Shortcut>, cs: seq<string>)
    requires Distinct(cs)
    requires forall s :: s in list ==> s.category in cs
    ensures SumOfCategories(list, cs) == |list|
    decreases |list|
  {
    if list == [] {
      SumOfNothing(cs);
    } else {
      var init, last := list[..|list| - 1], list[|list| - 1];
      assert list == init + [last];
      forall s | s in init
        ensures s.category in cs
      {
        assert s in list;
      }
      SumOfCategoriesCovers(init, cs);
      SizeSumSnoc(init, last, cs);
      OccursOnce(cs, last.category);
    }
  }

  lemma {:induction false} SumOfNothing(cs: seq<string>)
    ensures SumOfCategories([], cs) == 0
  {
    if cs != [] {
      SumOfNothing(cs[1..]);
    }
  }

  lemma {:induction false} SizeSumIsSumOfCategories(list: seq<Shortcut>, cs: seq<string>)
    requires forall k :: 0 <= k < |cs| ==> cs[k] in GroupsOf(list)
    ensures SizeSum(GroupsOf(list), cs) == SumOfCategories(list, cs)
  {
    if cs != [] {
      SizeSumIsSumOfCategories(list, cs[1..]);
    }
  }

  /**
   * Counted over the categories, each once, the group sizes add up to the
   * number of shortcuts: nothing is lost and nothing is counted twice.
   */
  lemma GroupSizesSum(list: seq<Shortcut>, cs: seq<string>)
    requires Distinct(cs)
    requires forall c :: c in cs <==> c in GroupsOf(list)
    ensures SizeSum(GroupsOf(list), cs) == |list|
  {
    SizeSumIsSumOfCategories(list, cs);
    GroupsPartition(list);
    SumOfCategoriesCovers(list, cs);
  }

  // ---------------------------------------------------------------------
  // The grouping as written
  // ---------------------------------------------------------------------

  /** The members every plain object inherits from `Object.prototype`; each reads as truthy. */
  const ObjectPrototypeMembers: set<string> := {
    "constructor", "__proto__", "hasOwnProperty", "isPrototypeOf", "propertyIsEnumerable",
    "toLocaleString", "toString", "valueOf", "__defineGetter__", "__defineSetter__",
    "__lookupGetter__", "__lookupSetter__"}

  /**
   * One step of the `reduce` on a plain object: for an inherited member's
   * name no group is created and the `push` throws (`None`); otherwise the
   * shortcut is appended to its category's group.
   */
  function StepAsWritten(acc: Option<Groups>, s: Shortcut): Option<Groups> {
    match acc
    case None => None
    case Some(g) =>
      if s.category !in g && s.category in ObjectPrototypeMembers then None
      else Some(AddToGroup(g, s))
  }

  /** The `reduce` over the filtered shortcuts, from the left. */
  function GroupedAsWritten(list: seq<Shortcut>): Option<Groups> {
    if list == [] then Some(map[])
    else StepAsWritten(GroupedAsWritten(list[..|list| - 1]), list[|list| - 1])
  }

  /** Without inherited names among the categories, the fold as written builds the intended groups. */
  lemma {:induction false} AsWrittenAgrees(list: seq<Shortcut>)
    requires forall s :: s in list ==> s.category !in ObjectPrototypeMembers
    ensures GroupedAsWritten(list) == Some(GroupsOf(list))
    decreases |list|
  {
    if list != [] {
      var init, last := list[..|list| - 1], list[|list| - 1];
      assert list == init + [last];
      forall s | s in init
        ensures s.category !in ObjectPrototypeMembers
      {
        assert s in list;
      }
      AsWrittenAgrees(init);
      GroupsSnoc(init, last);
    }
  }

  /** A single shortcut filed under `constructor` makes the grouping as written throw, though its intended group exists. */
  lemma ConstructorCategoryThrows(s: Shortcut)
    requires s.category == "constructor"
    ensures GroupedAsWritten([s]) == None
    ensures GroupsOf([s]) == map["constructor" := [s]]
  {
    assert [s][..0] == [];
    GroupsSnoc([], s);
    assert [] + [s] == [s];
  }
}
