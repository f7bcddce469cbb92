/**
 * The shortcut list the front end keeps, and what its handlers do to it:
 * create, update by id, delete by id, the `lastUsed` stamp on execute, the
 * collapsed-category toggle and the search filter. The React state around
 * them is not modelled: each handler is the function from the old list (or
 * set) to the new one.
 */
module Shortcuts {
  import opened Wrappers
  import opened Text
  import opened DateFormat

  /** The `type` of a shortcut. */
  datatype Kind = Url | WebApp | System | Script

  /** The string the front end stores and sends for a kind. */
  function KindName(k: Kind): string {
    match k
    case Url => "url"
    case WebApp => "web-app"
    case System => "system"
    case Script => "script"
  }

  datatype Shortcut = Shortcut(
    id: string,
    name: string,
    description: string,
    executable: string,
    parameters: string,
    icon: string,
    category: string,
    kind: Kind,
    workingDirectory: Option<string>,
    createdAt: Date,
    lastUsed: Option<Date>)

  /** What the form hands to create: a shortcut without its id and creation time. */
  datatype Draft = Draft(
    name: string,
    description: string,
    executable: string,
    parameters: string,
    icon: string,
    category: string,
    kind: Kind,
    workingDirectory: Option<string>,
    lastUsed: Option<Date>)

  /** The fields of a shortcut that came from its draft. */
  function DraftOf(s: Shortcut): Draft {
    Draft(s.name, s.description, s.executable, s.parameters, s.icon, s.category, s.kind,
      s.workingDirectory, s.lastUsed)
  }

  predicate HasId(list: seq<Shortcut>, id: string) {
    exists i :: 0 <= i < |list| && list[i].id == id
  }

  predicate UniqueIds(list: seq<Shortcut>) {
    forall i, j :: 0 <= i < j < |list| ==> list[i].id != list[j].id
  }

  // ---------------------------------------------------------------------
  // create
  // ---------------------------------------------------------------------

  /**
   * `handleCreateShortcut`: the draft, with the text of `Date.now()` as its id
   * and `new Date()` as its creation time, appended to the list.
   */
  function Create(list: seq<Shortcut>, d: Draft, nowMs: int, now: Date): (r: seq<Shortcut>)
    ensures |r| == |list| + 1
    ensures r[..|list|] == list
    ensures DraftOf(r[|list|]) == d
    ensures r[|list|].id == IntText(nowMs) && r[|list|].createdAt == now
  {
    var s := Shortcut(IntText(nowMs), d.name, d.description, d.executable, d.parameters, d.icon,
      d.category, d.kind, d.workingDirectory, now, d.lastUsed);
    list + [s]
  }

  /** Ids are `Date.now()` texts: when every earlier id is the text of an earlier instant, the new one is fresh and ids stay unique. */
  lemma CreateKeepsIdsUnique(list: seq<Shortcut>, d: Draft, nowMs: int, now: Date)
    requires UniqueIds(list)
    requires forall i :: 0 <= i < |list| ==> exists t :: t < nowMs && list[i].id == IntText(t)
    ensures UniqueIds(Create(list, d, nowMs, now))
  {
    var r := Create(list, d, nowMs, now);
    forall i | 0 <= i < |list|
      ensures list[i].id != IntText(nowMs)
    {
      var t :| t < nowMs && list[i].id == IntText(t);
      if IntText(t) == IntText(nowMs) {
        IntTextInjective(t, nowMs);
      }
    }
    assert forall i :: 0 <= i < |list| ==> r[i] == list[i];
  }

  // ---------------------------------------------------------------------
  // update by id
  // ---------------------------------------------------------------------

  /** `handleUpdateShortcut`: every entry with the updated shortcut's id is replaced by it. */
  function Update(list: seq<Shortcut>, u: Shortcut): (r: seq<Shortcut>)
    ensures |r| == |list|
    ensures forall i :: 0 <= i < |list| && list[i].id == u.id ==> r[i] == u
    ensures forall i :: 0 <= i < |list| && list[i].id != u.id ==> r[i] == list[i]
  {
    if list == [] then []
    else [if list[0].id == u.id then u else list[0]] + Update(list[1..], u)
  }

  /** Updating twice with the same shortcut is updating once. */
  lemma UpdateIdempotent(list: seq<Shortcut>, u: Shortcut)
    ensures Update(Update(list, u), u) == Update(list, u)
  {
  }

  /** Update keeps the ids, so it keeps them unique. */
  lemma UpdateKeepsIds(list: seq<Shortcut>, u: Shortcut)
    ensures forall i :: 0 <= i < |list| ==> Update(list, u)[i].id == list[i].id
    ensures UniqueIds(list) ==> UniqueIds(Update(list, u))
  {
  }

  // ---------------------------------------------------------------------
  // delete by id
  // ---------------------------------------------------------------------

  /** `handleDeleteShortcut`: the entries whose id differs, in their order. */
  function Delete(list: seq<Shortcut>, id: string): (r: seq<Shortcut>)
    ensures forall s :: s in r <==> s in list && s.id != id
    ensures !HasId(r, id)
    ensures |r| <= |list|
  {
    if list == [] then []
    else if list[0].id != id then [list[0]] + Delete(list[1..], id)
    else Delete(list[1..], id)
  }

  /** Delete keeps the order: deleting from a concatenation deletes from each part. */
  lemma {:induction false} DeleteAppend(a: seq<Shortcut>, b: seq<Shortcut>, id: string)
    ensures Delete(a + b, id) == Delete(a, id) + Delete(b, id)
  {
    if a != [] {
      assert (a + b)[1..] == a[1..] + b;
      DeleteAppend(a[1..], b, id);
    } else {
      assert a + b == b;
    }
  }

  /** Deleting an id no entry has changes nothing. */
  lemma {:induction false} DeleteAbsent(list: seq<Shortcut>, id: string)
    requires !HasId(list, id)
    ensures Delete(list, id) == list
  {
    if list != [] {
      assert !HasId(list[1..], id) by {
        forall i | 0 <= i < |list[1..]|
          ensures list[1..][i].id != id
        {
          assert list[1..][i] == list[i + 1];
        }
      }
      DeleteAbsent(list[1..], id);
    }
  }

  /** Creating a shortcut and then deleting it by its fresh id gives back the list. */
  lemma CreateThenDelete(list: seq<Shortcut>, d: Draft, nowMs: int, now: Date)
    requires !HasId(list, IntText(nowMs))
    ensures Delete(Create(list, d, nowMs, now), IntText(nowMs)) == list
  {
    var r := Create(list, d, nowMs, now);
    assert r == list + [r[|list|]];
    DeleteAppend(list, [r[|list|]], IntText(nowMs));
    DeleteAbsent(list, IntText(nowMs));
  }

  /** Deleting after updating the same id is deleting. */
  lemma {:induction false} UpdateThenDelete(list: seq<Shortcut>, u: Shortcut)
    ensures Delete(Update(list, u), u.id) == Delete(list, u.id)
  {
    if list != [] {
      UpdateThenDelete(list[1..], u);
    }
  }

  // ---------------------------------------------------------------------
  // the lastUsed stamp
  // ---------------------------------------------------------------------

  /** The stamp on execute: the executed shortcut with `lastUsed` set to now replaces every entry with its id. */
  function Touch(list: seq<Shortcut>, s: Shortcut, now: Date): (r: seq<Shortcut>)
    ensures |r| == |list|
    ensures forall i :: 0 <= i < |list| && list[i].id != s.id ==> r[i] == list[i]
    ensures forall i :: 0 <= i < |list| && list[i].id == s.id ==> r[i] == s.(lastUsed := Some(now))
  {
    Update(list, s.(lastUsed := Some(now)))
  }

  /**
   * When the executed shortcut is the list's own entry and ids are unique,
   * the stamp changes that entry's `lastUsed` and nothing else.
   */
  lemma TouchChangesOnlyLastUsed(list: seq<Shortcut>, k: nat, now: Date)
    requires k < |list| && UniqueIds(list)
    ensures forall i :: 0 <= i < |list| && i != k ==> Touch(list, list[k], now)[i] == list[i]
    ensures Touch(list, list[k], now)[k] == list[k].(lastUsed := Some(now))
  {
  }

  // ---------------------------------------------------------------------
  // the collapsed-category toggle
  // ---------------------------------------------------------------------

  /** `toggleCategory`: a copy of the collapsed set with the category removed if present, added otherwise. */
  function Toggle(collapsed: set<string>, c: string): (r: set<string>)
    ensures c in r <==> c !in collapsed
    ensures forall x :: x != c ==> (x in r <==> x in collapsed)
  {
    if c in collapsed then collapsed - {c} else collapsed + {c}
  }

  /** Toggling twice restores the set. */
  lemma ToggleTwice(collapsed: set<string>, c: string)
    ensures Toggle(Toggle(collapsed, c), c) == collapsed
  {
  }

  // ---------------------------------------------------------------------
  // the search filter
  // ---------------------------------------------------------------------

  /** The lower-cased term occurs in the lower-cased name, description, category or type. */
  predicate Matches(s: Shortcut, term: string) {
    var t := Lower(term);
    Contains(Lower(s.name), t) || Contains(Lower(s.description), t) ||
    Contains(Lower(s.category), t) || Contains(Lower(KindName(s.kind)), t)
  }

  /** `filteredShortcuts`: the entries that match the term, in their order. */
  function Search(list: seq<Shortcut>, term: string): (r: seq<Shortcut>)
    ensures forall s :: s in r <==> s in list && Matches(s, term)
    ensures |r| <= |list|
  {
    if list == [] then []
    else if Matches(list[0], term) then [list[0]] + Search(list[1..], term)
    else Search(list[1..], term)
  }

  /** The filter keeps the order: filtering a concatenation filters each part. */
  lemma {:induction false} SearchAppend(a: seq<Shortcut>, b: seq<Shortcut>, term: string)
    ensures Search(a + b, term) == Search(a, term) + Search(b, term)
  {
    if a != [] {
      assert (a + b)[1..] == a[1..] + b;
      SearchAppend(a[1..], b, term);
    } else {
      assert a + b == b;
    }
  }

  /** The empty term keeps every entry. */
  lemma {:induction false} SearchEmptyTerm(list: seq<Shortcut>)
    ensures Search(list, "") == list
  {
    if list != [] {
      ContainsEmpty(Lower(list[0].name));
      SearchEmptyTerm(list[1..]);
    }
  }

  /** The filter does not care about the case of the term's letters. */
  lemma SearchIgnoresCase(s: Shortcut, term: string)
    ensures Matches(s, Lower(term)) <==> Matches(s, term)
  {
    LowerIdempotent(term);
  }

  /** Filtering twice with the same term is filtering once. */
  lemma {:induction false} SearchIdempotent(list: seq<Shortcut>, term: string)
    ensures Search(Search(list, term), term) == Search(list, term)
  {
    if list != [] {
      SearchIdempotent(list[1..], term);
    }
  }

  /** A shortcut matches the name of its own type. */
  lemma MatchesOwnKind(s: Shortcut)
    ensures Matches(s, KindName(s.kind))
  {
    var t := KindName(s.kind);
    assert Lower(t) == t;
    assert OccursAt(Lower(t), Lower(t), 0);
  }
}
