/** The note record and the id lookups shared by every operation on the store. */
module Notes {
  import opened Wrappers

  /** One stored note. Timestamps are ISO 8601 UTC strings as produced by
      Date.prototype.toISOString; they have a fixed width, so comparing them
      character by character orders them in time. */
  datatype Note = Note(id: string, title: string, content: string, createdAt: string, updatedAt: string)

  /** Every id present in the store. */
  function Ids(s: seq<Note>): set<string> {
    set i | 0 <= i < |s| :: s[i].id
  }

  /** No two stored notes share an id. */
  predicate UniqueIds(s: seq<Note>) {
    forall i, j :: 0 <= i < j < |s| ==> s[i].id != s[j].id
  }

  /** Position `i` holds the first note whose id is `id`. */
  predicate FirstWithId(s: seq<Note>, id: string, i: int) {
    0 <= i < |s| && s[i].id == id && forall j :: 0 <= j < i ==> s[j].id != id
  }

  /** Array.prototype.findIndex with the test `n.id === id`: the position of the
      first note carrying `id`, or None where the source gets -1. */
  function FindIndex(s: seq<Note>, id: string): (r: Option<nat>)
    ensures r.None? <==> id !in Ids(s)
    ensures r.Some? ==> FirstWithId(s, id, r.value)
  {
    if s == [] then None
    else if s[0].id == id then Some(0)
    else
      match FindIndex(s[1..], id)
      case None =>
        assert Ids(s) == {s[0].id} + Ids(s[1..]);
        None
      case Some(k) =>
        assert s[k + 1] == s[1..][k];
        Some(k + 1)
  }

  /** The first position holding `id` is the one FindIndex reports. */
  lemma FindIndexIsFirst(s: seq<Note>, id: string, i: nat)
    requires FirstWithId(s, id, i)
    ensures FindIndex(s, id) == Some(i)
  {
    assert s[i].id in Ids(s);
    var k := FindIndex(s, id).value;
    assert FirstWithId(s, id, k);
  }

  /** With unique ids the first match is the only match. */
  lemma FindIndexUnique(s: seq<Note>, id: string, i: nat)
    requires UniqueIds(s)
    requires i < |s| && s[i].id == id
    ensures FindIndex(s, id) == Some(i)
  {
  }
}
