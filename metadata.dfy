/**
 * `GET /api/metadata`: the categories and tags of the published articles,
 * each with the number of articles that use it, most used first.
 *
 * Each count table is a JavaScript `Map`, which keeps its keys in
 * insertion order; it is modelled as a sequence of slots with distinct
 * keys. `Array.prototype.sort` is stable, and a stable sort's result is
 * fixed by the comparator, so the sort is modelled by an insertion sort.
 */
module Metadata {
  import opened Wrappers
  import Lean

  /** `String(ref._id)`; `None` is the key `"undefined"` that every object
      without an `_id` shares. */
  type Key = Option<nat>

  /** A value of the map: `{ name, slug, count }`. */
  datatype Entry = Entry(name: string, slug: string, count: nat)

  datatype Slot = Slot(key: Key, entry: Entry)

  /** A `Map` in insertion order. */
  type Table = seq<Slot>

  /** `map.has(key)`, returning where the key sits. */
  function Find(t: Table, key: Key): (r: Option<nat>)
    ensures r.Some? ==> r.value < |t| && t[r.value].key == key
    ensures r.None? <==> forall k :: 0 <= k < |t| ==> t[k].key != key
  {
    if t == [] then None
    else if t[|t| - 1].key == key then Some(|t| - 1)
    else Find(t[..|t| - 1], key)
  }

  /** `count++` on the entry at slot `i`. */
  function Bump(t: Table, i: nat): Table
    requires i < |t|
  {
    t[i := t[i].(entry := t[i].entry.(count := t[i].entry.count + 1))]
  }

  /** One `forEach` callback: a falsy entry is skipped; a key already in the
      map gets `count++`; a new key is set with the entry's name and slug
      (or `''`) and count 1. */
  function Add(t: Table, r: Option<Lean.Ref>): Table {
    match r
    case None => t
    case Some(ref) =>
      match Find(t, ref.id)
      case Some(i) => Bump(t, i)
      case None => t + [Slot(ref.id, Entry(Lean.OrEmpty(ref.name), Lean.OrEmpty(ref.slug), 1))]
  }

  /** The table after the callbacks for `refs`, in order. */
  function Tally(refs: seq<Option<Lean.Ref>>): Table {
    if refs == [] then []
    else Add(Tally(refs[..|refs| - 1]), refs[|refs| - 1])
  }

  lemma TallyAppend(refs: seq<Option<Lean.Ref>>, x: Option<Lean.Ref>)
    ensures Tally(refs + [x]) == Add(Tally(refs), x)
  {
    assert (refs + [x])[..|refs|] == refs;
  }

  // ----- what the counts mean -----

  /** Entry `k` of `refs` is present and has the key `key`. */
  predicate Holds(refs: seq<Option<Lean.Ref>>, k: nat, key: Key)
    requires k < |refs|
  {
    refs[k].Some? && refs[k].value.id == key
  }

  /** How many entries of `refs` have the key. */
  function Occurrences(refs: seq<Option<Lean.Ref>>, key: Key): nat {
    if refs == [] then 0
    else Occurrences(refs[..|refs| - 1], key) + (if Holds(refs, |refs| - 1, key) then 1 else 0)
  }

  /** How many entries of `refs` are present (truthy). */
  function Present(refs: seq<Option<Lean.Ref>>): nat {
    if refs == [] then 0
    else Present(refs[..|refs| - 1]) + (if refs[|refs| - 1].Some? then 1 else 0)
  }

  /** Where the key first occurs in `refs`; `|refs|` when it does not. */
  function FirstIndex(refs: seq<Option<Lean.Ref>>, key: Key): (f: nat)
    ensures f <= |refs|
  {
    if refs == [] then 0
    else
      var f := FirstIndex(refs[..|refs| - 1], key);
      if f < |refs| - 1 then f
      else if Holds(refs, |refs| - 1, key) then |refs| - 1
      else |refs|
  }

  /** `FirstIndex` is the first position holding the key, and the key occurs
      exactly when that position exists. */
  lemma {:induction false} FirstIndexSpec(refs: seq<Option<Lean.Ref>>, key: Key)
    ensures FirstIndex(refs, key) < |refs| ==> Holds(refs, FirstIndex(refs, key), key)
    ensures forall j :: 0 <= j < FirstIndex(refs, key) && j < |refs| ==> !Holds(refs, j, key)
    ensures FirstIndex(refs, key) < |refs| <==> Occurrences(refs, key) > 0
  {
    if refs != [] {
      var init := refs[..|refs| - 1];
      FirstIndexSpec(init, key);
      forall j | 0 <= j < |init| ensures Holds(init, j, key) == Holds(refs, j, key) {
      }
    }
  }

  /** The sum of the counts of a table. */
  function SumCounts(t: Table): nat {
    if t == [] then 0 else SumCounts(t[..|t| - 1]) + t[|t| - 1].entry.count
  }

  lemma {:induction false} SumCountsBump(t: Table, i: nat)
    requires i < |t|
    ensures SumCounts(Bump(t, i)) == SumCounts(t) + 1
  {
    var u := Bump(t, i);
    if i < |t| - 1 {
      assert u[..|u| - 1] == t[..|t| - 1][i := t[i].(entry := t[i].entry.(count := t[i].entry.count + 1))];
      SumCountsBump(t[..|t| - 1], i);
    } else {
      assert u[..|u| - 1] == t[..|t| - 1];
    }
  }

  lemma SumCountsAppend(t: Table, s: Slot)
    ensures SumCounts(t + [s]) == SumCounts(t) + s.entry.count
  {
    assert (t + [s])[..|t|] == t;
  }

  /** The table describes `refs`: its keys are distinct; each slot counts
      the entries with its key and holds the name and slug of the first of
      them; slots are in the order their keys first occur; every key that
      occurs has a slot. */
  ghost predicate Describes(t: Table, refs: seq<Option<Lean.Ref>>) {
    DistinctKeys(t) && CountsMatch(t, refs) && FirstNames(t, refs) && FirstOrder(t, refs) && Covers(t, refs)
  }

  ghost predicate DistinctKeys(t: Table) {
    forall i, j :: 0 <= i < j < |t| ==> t[i].key != t[j].key
  }

  ghost predicate CountsMatch(t: Table, refs: seq<Option<Lean.Ref>>) {
    forall i :: 0 <= i < |t| ==> t[i].entry.count == Occurrences(refs, t[i].key)
  }

  ghost predicate FirstNames(t: Table, refs: seq<Option<Lean.Ref>>) {
    forall i :: 0 <= i < |t| ==>
      && FirstIndex(refs, t[i].key) < |refs| && refs[FirstIndex(refs, t[i].key)].Some?
      && t[i].entry.name == Lean.OrEmpty(refs[FirstIndex(refs, t[i].key)].value.name)
      && t[i].entry.slug == Lean.OrEmpty(refs[FirstIndex(refs, t[i].key)].value.slug)
  }

  ghost predicate FirstOrder(t: Table, refs: seq<Option<Lean.Ref>>) {
    forall i, j :: 0 <= i < j < |t| ==> FirstIndex(refs, t[i].key) < FirstIndex(refs, t[j].key)
  }

  ghost predicate Covers(t: Table, refs: seq<Option<Lean.Ref>>) {
    forall k :: 0 <= k < |refs| && refs[k].Some? ==> Find(t, refs[k].value.id).Some?
  }

  /** Facts about extending `refs` by one entry, stated per key. */
  lemma ExtendFacts(refs: seq<Option<Lean.Ref>>, x: Option<Lean.Ref>, key: Key)
    ensures Occurrences(refs + [x], key) == Occurrences(refs, key) + (if x.Some? && x.value.id == key then 1 else 0)
    ensures FirstIndex(refs, key) < |refs| ==> FirstIndex(refs + [x], key) == FirstIndex(refs, key)
    ensures FirstIndex(refs, key) == |refs| && x.Some? && x.value.id == key ==> FirstIndex(refs + [x], key) == |refs|
    ensures Present(refs + [x]) == Present(refs) + (if x.Some? then 1 else 0)
  {
    assert (refs + [x])[..|refs|] == refs;
  }

  lemma AddSkips(t: Table, refs: seq<Option<Lean.Ref>>)
    requires Describes(t, refs)
    ensures Describes(Add(t, None), refs + [None])
  {
    var refs' := refs + [None];
    forall i | 0 <= i < |t| ensures Occurrences(refs', t[i].key) == Occurrences(refs, t[i].key)
                             && FirstIndex(refs', t[i].key) == FirstIndex(refs, t[i].key) {
      ExtendFacts(refs, None, t[i].key);
    }
    forall k | 0 <= k < |refs'| && refs'[k].Some? ensures Find(t, refs'[k].value.id).Some? {
      assert refs'[k] == refs[k];
    }
  }

  lemma AddBumps(t: Table, ref: Lean.Ref, i: nat)
    requires Find(t, ref.id) == Some(i)
    ensures Add(t, Some(ref)) == Bump(t, i)
  {
  }

  /** A key that already occurs keeps its first occurrence when one more
      entry is seen. */
  lemma FirstKept(refs: seq<Option<Lean.Ref>>, x: Option<Lean.Ref>, key: Key)
    requires FirstIndex(refs, key) < |refs|
    ensures FirstIndex(refs + [x], key) == FirstIndex(refs, key)
    ensures (refs + [x])[FirstIndex(refs, key)] == refs[FirstIndex(refs, key)]
  {
    ExtendFacts(refs, x, key);
  }

  /** A bumped table keeps its keys, names and slugs, and the first
      occurrences of its keys do not move. */
  lemma AddCountsShape(t: Table, refs: seq<Option<Lean.Ref>>, ref: Lean.Ref, i: nat)
    requires DistinctKeys(t) && FirstNames(t, refs) && FirstOrder(t, refs) && Find(t, ref.id) == Some(i)
    ensures DistinctKeys(Add(t, Some(ref)))
    ensures FirstNames(Add(t, Some(ref)), refs + [Some(ref)])
    ensures FirstOrder(Add(t, Some(ref)), refs + [Some(ref)])
  {
    AddBumps(t, ref, i);
    BumpKeepsNames(t, refs, ref, i);
    BumpKeepsOrder(t, refs, ref, i);
  }

  lemma BumpKeepsNames(t: Table, refs: seq<Option<Lean.Ref>>, ref: Lean.Ref, i: nat)
    requires FirstNames(t, refs) && i < |t|
    ensures FirstNames(Bump(t, i), refs + [Some(ref)])
  {
    var refs' := refs + [Some(ref)];
    var t' := Bump(t, i);
    forall j | 0 <= j < |t'|
      ensures && FirstIndex(refs', t'[j].key) < |refs'| && refs'[FirstIndex(refs', t'[j].key)].Some?
              && t'[j].entry.name == Lean.OrEmpty(refs'[FirstIndex(refs', t'[j].key)].value.name)
              && t'[j].entry.slug == Lean.OrEmpty(refs'[FirstIndex(refs', t'[j].key)].value.slug)
    {
      assert t'[j].key == t[j].key && t'[j].entry.name == t[j].entry.name && t'[j].entry.slug == t[j].entry.slug;
      FirstKept(refs, Some(ref), t[j].key);
    }
  }

  lemma BumpKeepsOrder(t: Table, refs: seq<Option<Lean.Ref>>, ref: Lean.Ref, i: nat)
    requires DistinctKeys(t) && FirstNames(t, refs) && FirstOrder(t, refs) && i < |t|
    ensures DistinctKeys(Bump(t, i))
    ensures FirstOrder(Bump(t, i), refs + [Some(ref)])
  {
    var refs' := refs + [Some(ref)];
    var t' := Bump(t, i);
    forall a, b | 0 <= a < b < |t'|
      ensures t'[a].key != t'[b].key && FirstIndex(refs', t'[a].key) < FirstIndex(refs', t'[b].key)
    {
      assert t'[a].key == t[a].key && t'[b].key == t[b].key;
      FirstKept(refs, Some(ref), t[a].key);
      FirstKept(refs, Some(ref), t[b].key);
    }
  }

  lemma AddCountsCounts(t: Table, refs: seq<Option<Lean.Ref>>, ref: Lean.Ref, i: nat)
    requires DistinctKeys(t) && CountsMatch(t, refs) && Find(t, ref.id) == Some(i)
    ensures CountsMatch(Add(t, Some(ref)), refs + [Some(ref)])
  {
    var refs' := refs + [Some(ref)];
    var t' := Bump(t, i);
    AddBumps(t, ref, i);
    forall j | 0 <= j < |t| ensures t'[j].entry.count == Occurrences(refs', t'[j].key) {
      ExtendFacts(refs, Some(ref), t[j].key);
    }
  }

  lemma AddCountsCovers(t: Table, refs: seq<Option<Lean.Ref>>, ref: Lean.Ref, i: nat)
    requires Covers(t, refs) && Find(t, ref.id) == Some(i)
    ensures Covers(Add(t, Some(ref)), refs + [Some(ref)])
  {
    var refs' := refs + [Some(ref)];
    var t' := Bump(t, i);
    AddBumps(t, ref, i);
    forall k | 0 <= k < |refs'| && refs'[k].Some? ensures Find(t', refs'[k].value.id).Some? {
      if k < |refs| {
        assert refs'[k] == refs[k];
        var p := Find(t, refs[k].value.id).value;
        assert t'[p].key == refs[k].value.id;
      } else {
        assert t'[i].key == ref.id;
      }
    }
  }

  lemma AddCounts(t: Table, refs: seq<Option<Lean.Ref>>, ref: Lean.Ref, i: nat)
    requires Describes(t, refs) && Find(t, ref.id) == Some(i)
    ensures Describes(Add(t, Some(ref)), refs + [Some(ref)])
  {
    AddCountsShape(t, refs, ref, i);
    AddCountsCounts(t, refs, ref, i);
    AddCountsCovers(t, refs, ref, i);
  }

  lemma AddAppends(t: Table, ref: Lean.Ref)
    requires Find(t, ref.id).None?
    ensures Add(t, Some(ref)) == t + [Slot(ref.id, Entry(Lean.OrEmpty(ref.name), Lean.OrEmpty(ref.slug), 1))]
  {
  }

  /** A key without a slot does not occur yet. */
  lemma NewKeyUnseen(t: Table, refs: seq<Option<Lean.Ref>>, key: Key)
    requires Covers(t, refs) && Find(t, key).None?
    ensures Occurrences(refs, key) == 0 && FirstIndex(refs, key) == |refs|
  {
    FirstIndexSpec(refs, key);
  }

  lemma AddCreatesNames(t: Table, refs: seq<Option<Lean.Ref>>, ref: Lean.Ref)
    requires FirstNames(t, refs) && Covers(t, refs) && Find(t, ref.id).None?
    ensures FirstNames(Add(t, Some(ref)), refs + [Some(ref)])
  {
    var refs' := refs + [Some(ref)];
    var t' := t + [Slot(ref.id, Entry(Lean.OrEmpty(ref.name), Lean.OrEmpty(ref.slug), 1))];
    AddAppends(t, ref);
    NewKeyUnseen(t, refs, ref.id);
    ExtendFacts(refs, Some(ref), ref.id);
    forall j | 0 <= j < |t'|
      ensures && FirstIndex(refs', t'[j].key) < |refs'| && refs'[FirstIndex(refs', t'[j].key)].Some?
              && t'[j].entry.name == Lean.OrEmpty(refs'[FirstIndex(refs', t'[j].key)].value.name)
              && t'[j].entry.slug == Lean.OrEmpty(refs'[FirstIndex(refs', t'[j].key)].value.slug)
    {
      if j < |t| {
        assert t'[j] == t[j];
        FirstKept(refs, Some(ref), t[j].key);
      } else {
        assert t'[j].key == ref.id && refs'[|refs|] == Some(ref);
      }
    }
  }

  lemma AddCreatesDistinct(t: Table, ref: Lean.Ref)
    requires DistinctKeys(t) && Find(t, ref.id).None?
    ensures DistinctKeys(Add(t, Some(ref)))
  {
    var t' := t + [Slot(ref.id, Entry(Lean.OrEmpty(ref.name), Lean.OrEmpty(ref.slug), 1))];
    AddAppends(t, ref);
    forall i, j | 0 <= i < j < |t'| ensures t'[i].key != t'[j].key {
      assert t'[i] == t[i];
      if j < |t| {
        assert t'[j] == t[j];
      }
    }
  }

  lemma AddCreatesOrder(t: Table, refs: seq<Option<Lean.Ref>>, ref: Lean.Ref)
    requires FirstNames(t, refs) && FirstOrder(t, refs) && Covers(t, refs)
    requires Find(t, ref.id).None?
    ensures FirstOrder(Add(t, Some(ref)), refs + [Some(ref)])
  {
    var refs' := refs + [Some(ref)];
    var t' := t + [Slot(ref.id, Entry(Lean.OrEmpty(ref.name), Lean.OrEmpty(ref.slug), 1))];
    AddAppends(t, ref);
    NewKeyUnseen(t, refs, ref.id);
    ExtendFacts(refs, Some(ref), ref.id);
    FirstsKept(t, refs, Some(ref));
    OrderAppend(t, refs, refs', t'[|t|]);
  }

  /** Appending a slot whose key first occurs after every other keeps the
      slots in first-occurrence order. */
  lemma OrderAppend(t: Table, refs: seq<Option<Lean.Ref>>, refs': seq<Option<Lean.Ref>>, s: Slot)
    requires FirstOrder(t, refs) && FirstIndex(refs', s.key) == |refs|
    requires forall i :: 0 <= i < |t| ==> FirstIndex(refs', t[i].key) == FirstIndex(refs, t[i].key) < |refs|
    ensures FirstOrder(t + [s], refs')
  {
    var t' := t + [s];
    forall i, j | 0 <= i < j < |t'| ensures FirstIndex(refs', t'[i].key) < FirstIndex(refs', t'[j].key) {
      assert t'[i] == t[i];
      if j < |t| {
        assert t'[j] == t[j];
      }
    }
  }

  /** One more entry moves no first occurrence of a key the table has. */
  lemma FirstsKept(t: Table, refs: seq<Option<Lean.Ref>>, x: Option<Lean.Ref>)
    requires FirstNames(t, refs)
    ensures forall i :: 0 <= i < |t| ==> FirstIndex(refs + [x], t[i].key) == FirstIndex(refs, t[i].key) < |refs|
  {
    forall i | 0 <= i < |t| ensures FirstIndex(refs + [x], t[i].key) == FirstIndex(refs, t[i].key) < |refs| {
      FirstKept(refs, x, t[i].key);
    }
  }

  lemma AddCreatesCounts(t: Table, refs: seq<Option<Lean.Ref>>, ref: Lean.Ref)
    requires CountsMatch(t, refs) && Covers(t, refs) && Find(t, ref.id).None?
    ensures CountsMatch(Add(t, Some(ref)), refs + [Some(ref)])
  {
    var refs' := refs + [Some(ref)];
    var t' := t + [Slot(ref.id, Entry(Lean.OrEmpty(ref.name), Lean.OrEmpty(ref.slug), 1))];
    AddAppends(t, ref);
    NewKeyUnseen(t, refs, ref.id);
    ExtendFacts(refs, Some(ref), ref.id);
    forall j | 0 <= j < |t| ensures t'[j].entry.count == Occurrences(refs', t'[j].key) {
      ExtendFacts(refs, Some(ref), t[j].key);
    }
  }

  lemma AddCreatesCovers(t: Table, refs: seq<Option<Lean.Ref>>, ref: Lean.Ref)
    requires Covers(t, refs) && Find(t, ref.id).None?
    ensures Covers(Add(t, Some(ref)), refs + [Some(ref)])
  {
    var refs' := refs + [Some(ref)];
    var t' := t + [Slot(ref.id, Entry(Lean.OrEmpty(ref.name), Lean.OrEmpty(ref.slug), 1))];
    AddAppends(t, ref);
    forall k | 0 <= k < |refs'| && refs'[k].Some? ensures Find(t', refs'[k].value.id).Some? {
      if k < |refs| {
        assert refs'[k] == refs[k];
        var p := Find(t, refs[k].value.id).value;
        assert t'[p].key == refs[k].value.id;
      } else {
        assert t'[|t|].key == ref.id;
      }
    }
  }

  lemma AddCreates(t: Table, refs: seq<Option<Lean.Ref>>, ref: Lean.Ref)
    requires Describes(t, refs) && Find(t, ref.id).None?
    ensures Describes(Add(t, Some(ref)), refs + [Some(ref)])
  {
    AddCreatesNames(t, refs, ref);
    AddCreatesDistinct(t, ref);
    AddCreatesOrder(t, refs, ref);
    AddCreatesCounts(t, refs, ref);
    AddCreatesCovers(t, refs, ref);
  }

  /** The table built by the callbacks describes the entries it was built from. */
  lemma {:induction false} TallyDescribes(refs: seq<Option<Lean.Ref>>)
    ensures Describes(Tally(refs), refs)
  {
    if refs != [] {
      var init, x := refs[..|refs| - 1], refs[|refs| - 1];
      assert refs == init + [x];
      TallyDescribes(init);
      match x
      case None => AddSkips(Tally(init), init);
      case Some(ref) =>
        match Find(Tally(init), ref.id)
        case Some(i) => AddCounts(Tally(init), init, ref, i);
        case None => AddCreates(Tally(init), init, ref);
    }
  }

  /** Each present entry adds exactly one to the counts: they sum to the
      number of present entries. */
  lemma {:induction false} TallySum(refs: seq<Option<Lean.Ref>>)
    ensures SumCounts(Tally(refs)) == Present(refs)
  {
    if refs != [] {
      var init, x := refs[..|refs| - 1], refs[|refs| - 1];
      TallySum(init);
      match x
      case None =>
      case Some(ref) =>
        match Find(Tally(init), ref.id)
        case Some(i) => SumCountsBump(Tally(init), i);
        case None => SumCountsAppend(Tally(init), Slot(ref.id, Entry(Lean.OrEmpty(ref.name), Lean.OrEmpty(ref.slug), 1)));
    }
  }

  /** Every count is at least 1, and a key has a slot exactly when it occurs. */
  lemma TallyKeys(refs: seq<Option<Lean.Ref>>, key: Key)
    ensures Find(Tally(refs), key).Some? <==> Occurrences(refs, key) > 0
    ensures forall i :: 0 <= i < |Tally(refs)| ==> Tally(refs)[i].entry.count >= 1
  {
    TallyDescribes(refs);
    var t := Tally(refs);
    forall i | 0 <= i < |t| ensures t[i].entry.count >= 1 {
      FirstIndexSpec(refs, t[i].key);
    }
    FirstIndexSpec(refs, key);
    if Occurrences(refs, key) > 0 {
      assert Holds(refs, FirstIndex(refs, key), key);
    }
  }

  // ----- what the callbacks see -----

  /** The `category` of each article, in order. */
  function CategoryRefs(docs: seq<Lean.Doc>): (refs: seq<Option<Lean.Ref>>)
    ensures |refs| == |docs|
  {
    seq(|docs|, k requires 0 <= k < |docs| => docs[k].category)
  }

  /** `Array.isArray(tags) ? tags : []`. */
  function TagItems(tags: Lean.RefList): seq<Option<Lean.Ref>> {
    match tags
    case NotArray => []
    case Items(items) => items
  }

  /** The tag entries of all articles, article by article. */
  function TagRefs(docs: seq<Lean.Doc>): seq<Option<Lean.Ref>> {
    if docs == [] then []
    else TagRefs(docs[..|docs| - 1]) + TagItems(docs[|docs| - 1].tags)
  }

  /** The body of a `forEach` callback, updating the table in place. */
  method Count(t: Table, r: Option<Lean.Ref>) returns (u: Table)
    ensures u == Add(t, r)
  {
    u := t;
    if r.Some? {
      var found := Find(u, r.value.id);
      if found.Some? {
        var existing := u[found.value];
        u := u[found.value := existing.(entry := existing.entry.(count := existing.entry.count + 1))];
      } else {
        u := u + [Slot(r.value.id, Entry(Lean.OrEmpty(r.value.name), Lean.OrEmpty(r.value.slug), 1))];
      }
    }
  }

  /** The category table, built by the first `forEach`. */
  method CountCategories(docs: seq<Lean.Doc>) returns (t: Table)
    ensures t == Tally(CategoryRefs(docs))
  {
    ghost var refs := CategoryRefs(docs);
    t := [];
    var i := 0;
    while i < |docs|
      invariant 0 <= i <= |docs|
      invariant t == Tally(refs[..i])
    {
      assert refs[..i + 1] == refs[..i] + [docs[i].category];
      TallyAppend(refs[..i], docs[i].category);
      t := Count(t, docs[i].category);
      i := i + 1;
    }
    assert refs[..|docs|] == refs;
  }

  /** The inner `forEach` over one article's tag array. */
  method CountItems(t: Table, ghost before: seq<Option<Lean.Ref>>, items: seq<Option<Lean.Ref>>) returns (u: Table)
    requires t == Tally(before)
    ensures u == Tally(before + items)
  {
    u := t;
    var j := 0;
    assert before + items[..0] == before;
    while j < |items|
      invariant 0 <= j <= |items|
      invariant u == Tally(before + items[..j])
    {
      assert before + items[..j + 1] == (before + items[..j]) + [items[j]];
      TallyAppend(before + items[..j], items[j]);
      u := Count(u, items[j]);
      j := j + 1;
    }
    assert items[..|items|] == items;
  }

  /** The tag table, built by the second `forEach` and the inner one over
      each article's tag array. */
  method CountTags(docs: seq<Lean.Doc>) returns (t: Table)
    ensures t == Tally(TagRefs(docs))
  {
    t := [];
    var i := 0;
    while i < |docs|
      invariant 0 <= i <= |docs|
      invariant t == Tally(TagRefs(docs[..i]))
    {
      assert docs[..i + 1][..i] == docs[..i] && docs[..i + 1][i] == docs[i];
      t := CountItems(t, TagRefs(docs[..i]), TagItems(docs[i].tags));
      i := i + 1;
    }
    assert docs[..|docs|] == docs;
  }

  // ----- the sort -----

  /** `Array.from(map.values())`. */
  function Values(t: Table): (vs: seq<Entry>)
    ensures |vs| == |t| && forall k :: 0 <= k < |t| ==> vs[k] == t[k].entry
  {
    seq(|t|, k requires 0 <= k < |t| => t[k].entry)
  }

  /** Insert `x` in front of the first entry it does not lose to, so that
      it stays ahead of the entries with its count. */
  function Insert(x: Entry, s: seq<Entry>): seq<Entry> {
    if s == [] || x.count >= s[0].count then [x] + s
    else [s[0]] + Insert(x, s[1..])
  }

  /** `.sort((a, b) => b.count - a.count)`, a stable sort. */
  function SortByCount(s: seq<Entry>): seq<Entry> {
    if s == [] then [] else Insert(s[0], SortByCount(s[1..]))
  }

  predicate Descending(s: seq<Entry>) {
    forall i, j :: 0 <= i < j < |s| ==> s[i].count >= s[j].count
  }

  /** The entries with count `c`, in order. */
  function WithCount(s: seq<Entry>, c: nat): seq<Entry> {
    if s == [] then [] else (if s[0].count == c then [s[0]] else []) + WithCount(s[1..], c)
  }

  lemma {:induction false} InsertMultiset(x: Entry, s: seq<Entry>)
    ensures multiset(Insert(x, s)) == multiset(s) + multiset{x}
    ensures |Insert(x, s)| == |s| + 1
  {
    if s != [] && x.count < s[0].count {
      InsertMultiset(x, s[1..]);
      assert s == [s[0]] + s[1..];
    }
  }

  lemma {:induction false} InsertDescending(x: Entry, s: seq<Entry>)
    requires Descending(s)
    ensures Descending(Insert(x, s))
  {
    if s == [] || x.count >= s[0].count {
      var r := [x] + s;
      forall i, j | 0 <= i < j < |r| ensures r[i].count >= r[j].count {
        assert r[j] == s[j - 1];
        if i > 0 {
          assert r[i] == s[i - 1];
        }
      }
    } else {
      var rest := Insert(x, s[1..]);
      InsertDescending(x, s[1..]);
      forall k | 0 <= k < |s[1..]| ensures s[1..][k].count <= s[0].count {
        assert s[1..][k] == s[k + 1];
      }
      InsertBounded(x, s[1..], s[0].count);
      var r := [s[0]] + rest;
      forall i, j | 0 <= i < j < |r| ensures r[i].count >= r[j].count {
        assert r[j] == rest[j - 1];
        if i > 0 {
          assert r[i] == rest[i - 1];
        }
      }
    }
  }

  /** Inserting an entry under a bound into a list under that bound stays
      under it. */
  lemma {:induction false} InsertBounded(x: Entry, s: seq<Entry>, b: nat)
    requires x.count <= b && forall k :: 0 <= k < |s| ==> s[k].count <= b
    ensures forall k :: 0 <= k < |Insert(x, s)| ==> Insert(x, s)[k].count <= b
  {
    if s == [] || x.count >= s[0].count {
      var r := [x] + s;
      forall k | 0 <= k < |r| ensures r[k].count <= b {
        if k > 0 {
          assert r[k] == s[k - 1];
        }
      }
    } else {
      forall k | 0 <= k < |s[1..]| ensures s[1..][k].count <= b {
        assert s[1..][k] == s[k + 1];
      }
      InsertBounded(x, s[1..], b);
      var rest := Insert(x, s[1..]);
      var r := [s[0]] + rest;
      forall k | 0 <= k < |r| ensures r[k].count <= b {
        if k > 0 {
          assert r[k] == rest[k - 1];
        }
      }
    }
  }

  lemma {:induction false} InsertWithCount(x: Entry, s: seq<Entry>, c: nat)
    ensures WithCount(Insert(x, s), c) == (if x.count == c then [x] else []) + WithCount(s, c)
  {
    if s == [] || x.count >= s[0].count {
      var r := [x] + s;
      assert r[0] == x && r[1..] == s;
      assert WithCount(r, c) == (if x.count == c then [x] else []) + WithCount(s, c);
    } else {
      var rest := Insert(x, s[1..]);
      InsertWithCount(x, s[1..], c);
      var r := [s[0]] + rest;
      assert r[0] == s[0] && r[1..] == rest;
      assert WithCount(r, c) == (if s[0].count == c then [s[0]] else []) + WithCount(rest, c);
      assert WithCount(s, c) == (if s[0].count == c then [s[0]] else []) + WithCount(s[1..], c);
    }
  }

  /** The sorted list holds the same entries, most used first. */
  lemma SortByCountSpec(s: seq<Entry>)
    ensures Descending(SortByCount(s))
    ensures multiset(SortByCount(s)) == multiset(s)
    ensures |SortByCount(s)| == |s|
  {
    SortByCountSorted(s);
    SortByCountPermutes(s);
  }

  lemma {:induction false} SortByCountSorted(s: seq<Entry>)
    ensures Descending(SortByCount(s))
  {
    if s != [] {
      SortByCountSorted(s[1..]);
      InsertDescending(s[0], SortByCount(s[1..]));
    }
  }

  lemma {:induction false} SortByCountPermutes(s: seq<Entry>)
    ensures multiset(SortByCount(s)) == multiset(s)
    ensures |SortByCount(s)| == |s|
  {
    if s != [] {
      var rest := SortByCount(s[1..]);
      SortByCountPermutes(s[1..]);
      InsertMultiset(s[0], rest);
      assert SortByCount(s) == Insert(s[0], rest);
      assert multiset(s) == multiset(s[1..]) + multiset{s[0]} by {
        assert s == [s[0]] + s[1..];
      }
    }
  }

  /** The sort is stable: the entries with any one count come out in the
      order they went in. */
  lemma {:induction false} SortByCountStable(s: seq<Entry>, c: nat)
    ensures WithCount(SortByCount(s), c) == WithCount(s, c)
  {
    if s != [] {
      SortByCountStable(s[1..], c);
      InsertWithCount(s[0], SortByCount(s[1..]), c);
    }
  }

  // ----- the handler -----

  /** `GET /api/metadata`: count over the published articles, then sort. */
  method Handle(docs: seq<Lean.Doc>) returns (categories: seq<Entry>, tags: seq<Entry>)
    ensures categories == SortByCount(Values(Tally(CategoryRefs(Lean.PublishedOnly(docs)))))
    ensures tags == SortByCount(Values(Tally(TagRefs(Lean.PublishedOnly(docs)))))
  {
    var published := Lean.PublishedOnly(docs);
    var categoryTable := CountCategories(published);
    var tagTable := CountTags(published);
    categories := SortByCount(Values(categoryTable));
    tags := SortByCount(Values(tagTable));
  }
}
