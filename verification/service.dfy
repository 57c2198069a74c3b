/** The notes service: an in-memory sequence of notes with list, create, read,
    update and remove.

    Every operation takes the current store and returns a `Step` carrying the new
    store, the operation's result and whether the whole store would then be written
    back to the data file. The clock reading `now` and the freshly generated `id`
    are parameters. */
module NotesService {
  import opened Wrappers
  import opened Text
  import opened JsValues
  import opened Notes
  import opened Ranking

  /** The outcome of one operation on the store. `saved` is true exactly when the
      operation ends by persisting the store. */
  datatype Step<R> = Step(store: seq<Note>, result: R, saved: bool)

  /** Page metadata: `limit` is None where the response carries `null`. */
  datatype Pagination = Pagination(total: nat, limit: Option<nat>, offset: nat)

  datatype Page = Page(data: seq<Note>, pagination: Pagination)

  // ---------------------------------------------------------------- list

  /** The text query takes part only when it is a string that is not blank after trimming. */
  predicate QueryActive(q: JsVal) {
    q.Str? && |Trim(q.s)| > 0
  }

  /** The per-note test of the list filter; an empty title or content is skipped
      before it is searched. */
  predicate Matches(n: Note, needle: string) {
    (n.title != [] && Contains(Lower(n.title), needle))
    || (n.content != [] && Contains(Lower(n.content), needle))
  }

  /** Array.prototype.filter with `Matches`: the matching notes, in their order. */
  function Filter(s: seq<Note>, needle: string): (r: seq<Note>)
    ensures |r| <= |s|
    ensures forall n :: n in r <==> n in s && Matches(n, needle)
    ensures forall n :: multiset(r)[n] == if Matches(n, needle) then multiset(s)[n] else 0
  {
    if s == [] then []
    else
      var rest := Filter(s[1..], needle);
      assert s == [s[0]] + s[1..];
      if Matches(s[0], needle) then [s[0]] + rest else rest
  }

  /** Filtering keeps the relative order, so a sorted sequence stays sorted. */
  lemma {:induction false} FilterKeepsOrder(s: seq<Note>, needle: string)
    requires SortedByRecency(s)
    ensures SortedByRecency(Filter(s, needle))
  {
    if s != [] {
      var rest := Filter(s[1..], needle);
      SortedTail(s);
      FilterKeepsOrder(s[1..], needle);
      if Matches(s[0], needle) {
        assert forall k :: 0 <= k < |rest| ==> rest[k] in s[1..];
        SortedPrepend(s[0], rest);
      }
    }
  }

  /** Filtering two permutations of each other gives permutations of each other. */
  lemma FilterRespectsPermutation(a: seq<Note>, b: seq<Note>, needle: string)
    requires multiset(a) == multiset(b)
    ensures multiset(Filter(a, needle)) == multiset(Filter(b, needle))
  {
    assert forall n :: multiset(Filter(a, needle))[n] == multiset(Filter(b, needle))[n];
  }

  /** The notes a query selects, in store order. */
  function Selected(store: seq<Note>, q: JsVal): seq<Note> {
    if QueryActive(q) then Filter(store, Lower(q.s)) else store
  }

  /** The list before paging: the store sorted newest first, then filtered with the
      lower-cased query. The query is searched for as given, without trimming. */
  function Ranked(store: seq<Note>, q: JsVal): (r: seq<Note>)
    ensures SortedByRecency(r)
    ensures multiset(r) == multiset(Selected(store, q))
  {
    var sorted := SortByRecency(store);
    if QueryActive(q) then
      FilterKeepsOrder(sorted, Lower(q.s));
      FilterRespectsPermutation(sorted, store, Lower(q.s));
      Filter(sorted, Lower(q.s))
    else
      sorted
  }

  /** list({q, limit, offset}) with `limit` and `offset` already parsed to integers. */
  function List(store: seq<Note>, q: JsVal, limit: Option<int>, offset: Option<int>): (r: Step<Page>)
    ensures r.store == store && !r.saved
    ensures r.result.pagination.total == |Ranked(store, q)|
    ensures r.result.pagination.limit.Some? <==> limit.Some?
    ensures limit.Some? ==> r.result.pagination.limit.value == Max(0, limit.value)
    ensures r.result.pagination.offset == if offset.Some? then Max(0, offset.value) else 0
    ensures var p := r.result.pagination;
            limit.Some? ==> r.result.data == Ranked(store, q)[Min(p.offset, p.total)..Min(p.offset + p.limit.value, p.total)]
    ensures limit.Some? ==> |r.result.data| <= Max(0, limit.value)
    ensures var p := r.result.pagination;
            limit.None? ==> r.result.data == Ranked(store, q)[Min(p.offset, p.total)..]
  {
    var ranked := Ranked(store, q);
    var lim: Option<nat> := if limit.Some? then Some(if limit.value < 0 then 0 else limit.value) else None;
    var off: nat := if offset.Some? && offset.value > 0 then offset.value else 0;
    var total := |ranked|;
    var data :=
      if lim.Some? then Slice(ranked, off, Some(off + lim.value))
      else if off > 0 then Slice(ranked, off, None)
      else ranked;
    if lim.Some? then SliceNonNegative(ranked, off, off + lim.value); Step(store, Page(data, Pagination(total, lim, off)), false)
    else Step(store, Page(data, Pagination(total, lim, off)), false)
  }

  /** Which notes a listing keeps: with an active query, those whose lower-cased title
      or content contains the lower-cased, untrimmed query; otherwise all of them. */
  lemma ListKeeps(store: seq<Note>, q: JsVal, n: Note)
    ensures QueryActive(q) ==>
      (n in Ranked(store, q) <==> n in store && (Contains(Lower(n.title), Lower(q.s)) || Contains(Lower(n.content), Lower(q.s))))
    ensures !QueryActive(q) ==> multiset(Ranked(store, q)) == multiset(store)
  {
    var r := Ranked(store, q);
    assert n in r <==> n in multiset(r);
    if QueryActive(q) {
      var needle := Lower(q.s);
      assert |needle| > 0;
      assert n in multiset(Filter(store, needle)) <==> n in Filter(store, needle);
      ContainsInEmpty(needle);
    }
  }

  /** The query is checked for blankness after trimming but searched for untrimmed:
      " milk" selects nothing from a store whose only note has title "milk". */
  lemma UntrimmedQuery()
    ensures var n := Note("a", "milk", "", "t", "t");
            QueryActive(Str(" milk")) && Ranked([n], Str(" milk")) == [] && Ranked([n], Str("milk")) == [n]
  {
    var n := Note("a", "milk", "", "t", "t");
    LowerFixesLowercase(" milk");
    LowerFixesLowercase("milk");
    ContainsNeedsRoom("milk", " milk");
    assert Contains("milk", "milk");
    assert !AllSpace(" milk") by { assert !IsSpace(" milk"[1]); }
    assert !AllSpace("milk") by { assert !IsSpace("milk"[0]); }
    RankedSingle(n, Str(" milk"));
    RankedSingle(n, Str("milk"));
  }

  /** A one-note store lists its note unless an active query rejects it. */
  lemma RankedSingle(n: Note, q: JsVal)
    ensures Ranked([n], q) == if QueryActive(q) && !Matches(n, Lower(q.s)) then [] else [n]
  {
    assert SortByRecency([n]) == [n];
    if QueryActive(q) {
      assert [n][1..] == [];
    }
  }

  // ---------------------------------------------------------------- create

  /** create({title = '', content = ''}): appends a note stamped `now` under the
      fresh id `id`, an absent field defaulting to the empty string. */
  function Create(store: seq<Note>, id: string, now: string, title: Option<string>, content: Option<string>): (r: Step<Note>)
    requires id !in Ids(store)
    ensures |r.store| == |store| + 1 && r.store[..|store|] == store && r.store[|store|] == r.result
    ensures r.result.id == id && r.result.createdAt == now && r.result.updatedAt == now
    ensures r.result.title == (if title.Some? then title.value else [])
    ensures r.result.content == (if content.Some? then content.value else [])
    ensures Ids(r.store) == Ids(store) + {id}
    ensures UniqueIds(store) ==> UniqueIds(r.store)
    ensures r.saved
  {
    var note := Note(id, title.GetOr([]), content.GetOr([]), now, now);
    var s' := store + [note];
    assert Ids(s') == Ids(store) + {id} by {
      forall x | x in Ids(s') ensures x in Ids(store) + {id} {
        var i :| 0 <= i < |s'| && s'[i].id == x;
        if i < |store| { assert s'[i] == store[i]; }
      }
      forall x | x in Ids(store) ensures x in Ids(s') {
        var i :| 0 <= i < |store| && store[i].id == x;
        assert s'[i] == store[i];
      }
      assert s'[|store|].id == id;
    }
    Step(s', note, true)
  }

  // ---------------------------------------------------------------- getById

  /** getById(id): the first note carrying `id`, without touching the store. */
  function GetById(store: seq<Note>, id: string): (r: Step<Option<Note>>)
    ensures r.store == store && !r.saved
    ensures r.result.None? <==> id !in Ids(store)
    ensures r.result.Some? ==> exists i :: FirstWithId(store, id, i) && r.result.value == store[i]
  {
    match FindIndex(store, id)
    case None => Step(store, None, false)
    case Some(i) => Step(store, Some(store[i]), false)
  }

  // ---------------------------------------------------------------- update

  /** update(id, {title, content}): a field given as Some replaces the stored one,
      even when it is the empty string; None keeps it. `id` and `createdAt` are kept
      and `updatedAt` becomes `now` whether or not anything else changed. An unknown
      id gives None and leaves the store alone. */
  function Update(store: seq<Note>, id: string, now: string, title: Option<string>, content: Option<string>): (r: Step<Option<Note>>)
    ensures id !in Ids(store) ==> r.result.None? && r.store == store && !r.saved
    ensures id in Ids(store) ==> r.result.Some? && r.saved && |r.store| == |store|
    ensures id in Ids(store) ==>
      var i := FindIndex(store, id).value;
      && r.result.value == r.store[i]
      && r.store[i].id == store[i].id
      && r.store[i].createdAt == store[i].createdAt
      && r.store[i].title == (if title.Some? then title.value else store[i].title)
      && r.store[i].content == (if content.Some? then content.value else store[i].content)
      && r.store[i].updatedAt == now
      && forall j :: 0 <= j < |store| && j != i ==> r.store[j] == store[j]
  {
    match FindIndex(store, id)
    case None => Step(store, None, false)
    case Some(i) =>
      var current := store[i];
      var updated := current.(title := title.GetOr(current.title),
                              content := content.GetOr(current.content),
                              updatedAt := now);
      Step(store[i := updated], Some(updated), true)
  }

  // ---------------------------------------------------------------- remove

  /** remove(id): splices out the first note carrying `id` and reports whether
      there was one. */
  function Remove(store: seq<Note>, id: string): (r: Step<bool>)
    ensures r.result <==> id in Ids(store)
    ensures r.saved <==> id in Ids(store)
    ensures !r.result ==> r.store == store
    ensures r.result ==>
      var i := FindIndex(store, id).value;
      && |r.store| == |store| - 1
      && multiset(r.store) == multiset(store) - multiset{store[i]}
      && (forall j :: 0 <= j < i ==> r.store[j] == store[j])
      && (forall j :: i <= j < |r.store| ==> r.store[j] == store[j + 1])
  {
    match FindIndex(store, id)
    case None => Step(store, false, false)
    case Some(i) =>
      MultisetDrop(store, i);
      Step(store[..i] + store[i + 1..], true, true)
  }

  // ---------------------------------------------------------------- properties

  /** A fresh id sits only at the end of the store that Create returns. */
  lemma CreatedIsFirst(store: seq<Note>, id: string, now: string, title: Option<string>, content: Option<string>)
    requires id !in Ids(store)
    ensures FindIndex(Create(store, id, now, title, content).store, id) == Some(|store|)
  {
    var c := Create(store, id, now, title, content);
    forall j | 0 <= j < |store| ensures c.store[j].id != id {
      assert c.store[j] == store[j];
      assert store[j].id in Ids(store);
    }
    FindIndexIsFirst(c.store, id, |store|);
  }

  /** Reading back a freshly created note finds it. */
  lemma GetAfterCreate(store: seq<Note>, id: string, now: string, title: Option<string>, content: Option<string>)
    requires id !in Ids(store)
    ensures var c := Create(store, id, now, title, content);
            GetById(c.store, id).result == Some(c.result)
  {
    CreatedIsFirst(store, id, now, title, content);
  }

  /** Removing a note just created restores the store exactly. */
  lemma RemoveUndoesCreate(store: seq<Note>, id: string, now: string, title: Option<string>, content: Option<string>)
    requires id !in Ids(store)
    ensures var c := Create(store, id, now, title, content);
            Remove(c.store, id) == Step(store, true, true)
  {
    var c := Create(store, id, now, title, content);
    CreatedIsFirst(store, id, now, title, content);
    assert c.store[..|store|] + c.store[|store| + 1..] == store;
  }

  /** An updated note stays where it was, ahead of any other note with its id. */
  lemma UpdatedIsFirst(store: seq<Note>, id: string, now: string, title: Option<string>, content: Option<string>)
    requires id in Ids(store)
    ensures FindIndex(Update(store, id, now, title, content).store, id) == FindIndex(store, id)
  {
    var u := Update(store, id, now, title, content);
    var i := FindIndex(store, id).value;
    forall j | 0 <= j < i ensures u.store[j].id != id {
      assert u.store[j] == store[j];
    }
    FindIndexIsFirst(u.store, id, i);
  }

  /** After an update, reading the note back returns the updated note. */
  lemma GetAfterUpdate(store: seq<Note>, id: string, now: string, title: Option<string>, content: Option<string>)
    requires id in Ids(store)
    ensures var u := Update(store, id, now, title, content);
            GetById(u.store, id).result == u.result
  {
    UpdatedIsFirst(store, id, now, title, content);
  }

  /** Repeating an update with the same fields and clock reading changes nothing more. */
  lemma UpdateIdempotent(store: seq<Note>, id: string, now: string, title: Option<string>, content: Option<string>)
    ensures var u := Update(store, id, now, title, content);
            Update(u.store, id, now, title, content) == u
  {
    var u := Update(store, id, now, title, content);
    if id in Ids(store) {
      UpdatedIsFirst(store, id, now, title, content);
      var i := FindIndex(store, id).value;
      assert u.store[i := u.store[i]] == u.store;
    }
  }

  /** Updates and removals keep ids unique. */
  lemma MutationsKeepIdsUnique(store: seq<Note>, id: string, now: string, title: Option<string>, content: Option<string>)
    requires UniqueIds(store)
    ensures UniqueIds(Update(store, id, now, title, content).store)
    ensures UniqueIds(Remove(store, id).store)
  {
    var u := Update(store, id, now, title, content);
    if id in Ids(store) {
      var i := FindIndex(store, id).value;
      assert forall j :: 0 <= j < |store| ==> u.store[j].id == store[j].id;
      var r := Remove(store, id);
      forall p, q | 0 <= p < q < |r.store| ensures r.store[p].id != r.store[q].id {
        var p' := if p < i then p else p + 1;
        var q' := if q < i then q else q + 1;
        assert r.store[p] == store[p'] && r.store[q] == store[q'];
      }
    }
  }

  /** With unique ids, a removed note can no longer be found. */
  lemma GetAfterRemove(store: seq<Note>, id: string)
    requires UniqueIds(store)
    ensures GetById(Remove(store, id).store, id).result.None?
  {
    var r := Remove(store, id);
    if id in Ids(store) {
      var i := FindIndex(store, id).value;
      forall k | 0 <= k < |r.store| ensures r.store[k].id != id {
        if k < i { assert r.store[k] == store[k]; }
        else { assert r.store[k] == store[k + 1]; }
      }
    }
  }

  /** An update may leave a note with both title and content empty: the service
      never re-checks the rule that creation goes through. */
  lemma UpdateMayEmptyBoth(store: seq<Note>, id: string, now: string)
    requires id in Ids(store)
    ensures var u := Update(store, id, now, Some([]), Some([]));
            u.result.Some? && u.result.value.title == [] && u.result.value.content == []
  {
  }
}
