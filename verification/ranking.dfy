/** Ordering notes by `updatedAt`, most recent first, as the list operation's
    comparator `b.updatedAt.localeCompare(a.updatedAt)` asks of the engine's sort. */
module Ranking {
  import opened Text
  import opened Notes

  /** `a` was updated no earlier than `b`. */
  predicate NewerOrSame(a: Note, b: Note) {
    LexLe(b.updatedAt, a.updatedAt)
  }

  /** Every note is at least as recent as every note after it. */
  predicate SortedByRecency(s: seq<Note>) {
    forall i, j :: 0 <= i < j < |s| ==> NewerOrSame(s[i], s[j])
  }

  /** Prepending a note at least as recent as everything already sorted keeps the order. */
  lemma SortedPrepend(x: Note, s: seq<Note>)
    requires SortedByRecency(s)
    requires forall k :: 0 <= k < |s| ==> NewerOrSame(x, s[k])
    ensures SortedByRecency([x] + s)
  {
    forall i, j | 0 <= i < j < |[x] + s| ensures NewerOrSame(([x] + s)[i], ([x] + s)[j]) {
      if i > 0 {
        assert ([x] + s)[i] == s[i - 1];
      }
    }
  }

  /** The tail of a sorted sequence is sorted, and its head is at least as recent
      as every note in it. */
  lemma SortedTail(s: seq<Note>)
    requires SortedByRecency(s) && |s| > 0
    ensures SortedByRecency(s[1..])
    ensures forall n :: n in s[1..] ==> NewerOrSame(s[0], n)
  {
    forall n | n in s[1..] ensures NewerOrSame(s[0], n) {
      var m :| 0 <= m < |s[1..]| && s[1..][m] == n;
      assert s[m + 1] == n;
    }
    forall i, j | 0 <= i < j < |s[1..]| ensures NewerOrSame(s[1..][i], s[1..][j]) {
      assert s[1..][i] == s[i + 1] && s[1..][j] == s[j + 1];
    }
  }

  /** Inserts `x` in front of the first note that is not more recent than it, so
      that among notes with equal timestamps `x` comes first. */
  function InsertByRecency(x: Note, s: seq<Note>): (r: seq<Note>)
    requires SortedByRecency(s)
    ensures SortedByRecency(r)
    ensures multiset(r) == multiset(s) + multiset{x}
  {
    if s == [] || NewerOrSame(x, s[0]) then
      assert forall k :: 0 <= k < |s| ==> NewerOrSame(x, s[k]) by {
        forall k | 0 <= k < |s| ensures NewerOrSame(x, s[k]) {
          if k > 0 { LexLeTransitive(s[k].updatedAt, s[0].updatedAt, x.updatedAt); }
        }
      }
      SortedPrepend(x, s);
      [x] + s
    else
      LexLeTotal(x.updatedAt, s[0].updatedAt);
      var rest := InsertByRecency(x, s[1..]);
      assert forall k :: 0 <= k < |rest| ==> NewerOrSame(s[0], rest[k]) by {
        forall k | 0 <= k < |rest| ensures NewerOrSame(s[0], rest[k]) {
          assert rest[k] in multiset(rest);
          if rest[k] != x {
            assert rest[k] in multiset(s[1..]);
            var m :| 0 <= m < |s[1..]| && s[1..][m] == rest[k];
            assert s[m + 1] == rest[k];
          }
        }
      }
      SortedPrepend(s[0], rest);
      assert s == [s[0]] + s[1..];
      [s[0]] + rest
  }

  /** The sort applied by the list operation: a stable insertion sort, newest first. */
  function SortByRecency(s: seq<Note>): (r: seq<Note>)
    ensures SortedByRecency(r)
    ensures multiset(r) == multiset(s)
  {
    if s == [] then []
    else
      assert s == [s[0]] + s[1..];
      InsertByRecency(s[0], SortByRecency(s[1..]))
  }

  /** Two sequences sorted by recency holding the same notes show the same
      timestamps position by position, so a sort may only differ from this one in
      how it orders notes whose timestamps tie. */
  lemma {:induction false} SortedPermutationsAgree(a: seq<Note>, b: seq<Note>)
    requires SortedByRecency(a) && SortedByRecency(b)
    requires multiset(a) == multiset(b)
    ensures |a| == |b|
    ensures forall k :: 0 <= k < |a| ==> a[k].updatedAt == b[k].updatedAt
    decreases |a|
  {
    assert |a| == |multiset(a)| == |multiset(b)| == |b|;
    if |a| > 0 {
      assert a[0] in multiset(b);
      var i :| 0 <= i < |b| && b[i] == a[0];
      SortedHeadsAgree(a, b);
      TiedPrefix(b, i);
      // Take the note a[0] out of both sequences and compare what is left.
      var b' := b[..i] + b[i + 1..];
      DropSameNote(a, b, i);
      assert SortedByRecency(a[1..]) && SortedByRecency(b') by {
        SortedDrop(b, i);
        SortedDrop(a, 0);
        assert a[..0] + a[1..] == a[1..];
      }
      SortedPermutationsAgree(a[1..], b');
      RealignAfterDrop(a, b, i);
    }
  }

  /** Stitches the recursive step of SortedPermutationsAgree back together: `a`
      without its head agrees with `b` without position `i`, and `b[..i + 1]` ties
      with `a[0]`. */
  lemma RealignAfterDrop(a: seq<Note>, b: seq<Note>, i: nat)
    requires |a| == |b| && i < |b| && b[i] == a[0]
    requires forall m :: 0 <= m <= i ==> b[m].updatedAt == b[0].updatedAt
    requires forall k :: 0 <= k < |a| - 1 ==> a[1..][k].updatedAt == (b[..i] + b[i + 1..])[k].updatedAt
    ensures forall k :: 0 <= k < |a| ==> a[k].updatedAt == b[k].updatedAt
  {
    var b' := b[..i] + b[i + 1..];
    forall k | 1 <= k < |a| ensures a[k].updatedAt == b[k].updatedAt {
      assert a[k] == a[1..][k - 1];
      if k <= i {
        assert b'[k - 1] == b[k - 1];
      } else {
        assert b'[k - 1] == b[k];
      }
    }
  }

  /** The newest notes of two sorted permutations of each other share a timestamp. */
  lemma SortedHeadsAgree(a: seq<Note>, b: seq<Note>)
    requires SortedByRecency(a) && SortedByRecency(b)
    requires multiset(a) == multiset(b) && |a| > 0
    ensures |b| > 0 && a[0].updatedAt == b[0].updatedAt
  {
    assert a[0] in multiset(b) && b[0] in multiset(a);
    var i :| 0 <= i < |b| && b[i] == a[0];
    var j :| 0 <= j < |a| && a[j] == b[0];
    if i > 0 && j > 0 {
      assert NewerOrSame(a[0], a[j]) && NewerOrSame(b[0], b[i]);
      LexLeAntisymmetric(a[0].updatedAt, b[0].updatedAt);
    }
  }

  /** In a sorted sequence, everything between two notes of equal timestamp ties with them. */
  lemma TiedPrefix(b: seq<Note>, i: nat)
    requires SortedByRecency(b) && i < |b|
    requires b[i].updatedAt == b[0].updatedAt
    ensures forall m :: 0 <= m <= i ==> b[m].updatedAt == b[0].updatedAt
  {
    forall m | 0 < m < i ensures b[m].updatedAt == b[0].updatedAt {
      assert NewerOrSame(b[0], b[m]) && NewerOrSame(b[m], b[i]);
      LexLeAntisymmetric(b[m].updatedAt, b[0].updatedAt);
    }
  }

  /** Removing the same note from two permutations of each other leaves permutations. */
  lemma DropSameNote(a: seq<Note>, b: seq<Note>, i: nat)
    requires multiset(a) == multiset(b)
    requires 0 < |a| && i < |b| && b[i] == a[0]
    ensures multiset(a[1..]) == multiset(b[..i] + b[i + 1..])
  {
    MultisetDrop(b, i);
    assert a == [a[0]] + a[1..];
    assert multiset(a) == multiset{a[0]} + multiset(a[1..]);
  }

  /** Dropping position `i` removes exactly one copy of `s[i]`. */
  lemma MultisetDrop<T>(s: seq<T>, i: nat)
    requires i < |s|
    ensures multiset(s[..i] + s[i + 1..]) == multiset(s) - multiset{s[i]}
  {
    assert s == s[..i] + [s[i]] + s[i + 1..];
  }

  /** Dropping one note keeps a sorted sequence sorted. */
  lemma SortedDrop(s: seq<Note>, i: nat)
    requires SortedByRecency(s) && i < |s|
    ensures SortedByRecency(s[..i] + s[i + 1..])
  {
    var t := s[..i] + s[i + 1..];
    forall p, q | 0 <= p < q < |t| ensures NewerOrSame(t[p], t[q]) {
      var p' := if p < i then p else p + 1;
      var q' := if q < i then q else q + 1;
      assert t[p] == s[p'] && t[q] == s[q'];
    }
  }
}
