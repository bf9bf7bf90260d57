/**
 * The bookmark list component: a client-side, newest-first list of one
 * user's bookmarks, seeded from a snapshot and kept in step with the
 * database by realtime INSERT and DELETE notifications, plus the single
 * "delete in progress" slot that disables one delete button.
 */
module BookmarkList {
  import opened Wrappers

  /** Row identifiers are opaque values assigned by the storage layer. */
  type Id = string

  /** One row of the `bookmarks` table as the realtime payload delivers it. */
  datatype Bookmark = Bookmark(id: Id, title: string, url: string, userId: Id, createdAt: string)

  /** `current.some(b => b.id === id)` */
  predicate HasId(current: seq<Bookmark>, id: Id)
  {
    exists i :: 0 <= i < |current| && current[i].id == id
  }

  /** No two records of the list share an identifier. */
  predicate UniqueIds(current: seq<Bookmark>)
  {
    forall i, j :: 0 <= i < j < |current| ==> current[i].id != current[j].id
  }

  /** `a` is obtained from `b` by dropping elements: its records appear in `b` in the same relative order. */
  predicate IsSubsequence(a: seq<Bookmark>, b: seq<Bookmark>)
    decreases |b|
  {
    if a == [] then true
    else if b == [] then false
    else (a[0] == b[0] && IsSubsequence(a[1..], b[1..])) || IsSubsequence(a, b[1..])
  }

  /** The set of identifiers occurring in the list. */
  function IdSet(current: seq<Bookmark>): (ids: set<Id>)
    ensures forall id :: id in ids <==> HasId(current, id)
    ensures |ids| <= |current|
    decreases |current|
  {
    if current == [] then {}
    else
      var rest := IdSet(current[1..]);
      assert forall id :: HasId(current[1..], id) ==> HasId(current, id) by {
        forall id | HasId(current[1..], id) ensures HasId(current, id) {
          var i :| 0 <= i < |current[1..]| && current[1..][i].id == id;
          assert current[i + 1].id == id;
        }
      }
      assert forall id :: HasId(current, id) ==> id == current[0].id || HasId(current[1..], id) by {
        forall id | HasId(current, id) ensures id == current[0].id || HasId(current[1..], id) {
          var i :| 0 <= i < |current| && current[i].id == id;
          if i > 0 { assert current[1..][i - 1].id == id; }
        }
      }
      {current[0].id} + rest
  }

  /**
   * The INSERT updater: a record whose identifier is already listed is ignored
   * (duplicate delivery); otherwise the record goes to the front.
   */
  function InsertUpdate(current: seq<Bookmark>, rec: Bookmark): (r: seq<Bookmark>)
    ensures HasId(r, rec.id)
    ensures forall b :: b in current ==> b in r
    ensures forall b :: b in r ==> b in current || b == rec
    ensures IdSet(r) == IdSet(current) + {rec.id}
  {
    if HasId(current, rec.id) then current
    else
      assert ([rec] + current)[0] == rec;
      [rec] + current
  }

  /** The DELETE updater, `current.filter(b => b.id !== id)`. */
  function DeleteUpdate(current: seq<Bookmark>, id: Id): (r: seq<Bookmark>)
    ensures forall b :: b in r <==> b in current && b.id != id
    ensures !HasId(r, id)
    ensures |r| <= |current|
    decreases |current|
  {
    if current == [] then []
    else if current[0].id != id then [current[0]] + DeleteUpdate(current[1..], id)
    else DeleteUpdate(current[1..], id)
  }

  /** DELETE keeps every copy of every record with a different identifier, and no copy of the others. */
  lemma {:induction false} DeleteKeepsCounts(current: seq<Bookmark>, id: Id)
    ensures forall b :: multiset(DeleteUpdate(current, id))[b] == (if b.id != id then multiset(current)[b] else 0)
    decreases |current|
  {
    if current != [] {
      DeleteKeepsCounts(current[1..], id);
      assert current == [current[0]] + current[1..];
    }
  }

  // ---------------------------------------------------------------------
  // Properties of the two updaters

  /** An INSERT of an already listed identifier returns the list unchanged. */
  lemma InsertDuplicateUnchanged(current: seq<Bookmark>, rec: Bookmark)
    requires HasId(current, rec.id)
    ensures InsertUpdate(current, rec) == current
  {
  }

  /** An INSERT of a new identifier grows the list by one, with the new record at the head and the old list behind it. */
  lemma InsertFreshPrepends(current: seq<Bookmark>, rec: Bookmark)
    requires !HasId(current, rec.id)
    ensures var r := InsertUpdate(current, rec); |r| == |current| + 1 && r[0] == rec && r[1..] == current
  {
  }

  /** Applying the same INSERT twice gives the same list as applying it once. */
  lemma InsertIdempotent(current: seq<Bookmark>, rec: Bookmark)
    ensures InsertUpdate(InsertUpdate(current, rec), rec) == InsertUpdate(current, rec)
  {
  }

  /** INSERT keeps the identifiers of an id-unique list pairwise distinct. */
  lemma InsertPreservesUnique(current: seq<Bookmark>, rec: Bookmark)
    requires UniqueIds(current)
    ensures UniqueIds(InsertUpdate(current, rec))
  {
    var r := InsertUpdate(current, rec);
    if !HasId(current, rec.id) {
      forall i, j | 0 <= i < j < |r| ensures r[i].id != r[j].id {
        if i == 0 {
          assert r[j] == current[j - 1];
        } else {
          assert r[i] == current[i - 1] && r[j] == current[j - 1];
        }
      }
    }
  }

  /** DELETE of an identifier that is not listed is a no-op. */
  lemma {:induction false} DeleteAbsentUnchanged(current: seq<Bookmark>, id: Id)
    requires !HasId(current, id)
    ensures DeleteUpdate(current, id) == current
    decreases |current|
  {
    if current != [] {
      assert current[0].id != id;
      assert !HasId(current[1..], id) by {
        forall i | 0 <= i < |current[1..]| ensures current[1..][i].id != id {
          assert current[1..][i] == current[i + 1];
        }
      }
      DeleteAbsentUnchanged(current[1..], id);
      assert current == [current[0]] + current[1..];
    }
  }

  /** DELETE keeps the remaining records in their old relative order. */
  lemma {:induction false} DeleteIsSubsequence(current: seq<Bookmark>, id: Id)
    ensures IsSubsequence(DeleteUpdate(current, id), current)
    decreases |current|
  {
    if current != [] {
      var rest := DeleteUpdate(current[1..], id);
      DeleteIsSubsequence(current[1..], id);
      if current[0].id != id {
        assert ([current[0]] + rest)[1..] == rest;
      }
    }
  }

  /** Delivering the same DELETE twice is the same as delivering it once. */
  lemma DeleteIdempotent(current: seq<Bookmark>, id: Id)
    ensures DeleteUpdate(DeleteUpdate(current, id), id) == DeleteUpdate(current, id)
  {
    DeleteAbsentUnchanged(DeleteUpdate(current, id), id);
  }

  /** A subsequence of an id-unique list is id-unique. */
  lemma {:induction false} SubsequenceUnique(a: seq<Bookmark>, b: seq<Bookmark>)
    requires IsSubsequence(a, b) && UniqueIds(b)
    ensures UniqueIds(a)
    decreases |b|
  {
    if a != [] {
      assert UniqueIds(b[1..]) by {
        forall i, j | 0 <= i < j < |b[1..]| ensures b[1..][i].id != b[1..][j].id {
          assert b[1..][i] == b[i + 1] && b[1..][j] == b[j + 1];
        }
      }
      if a[0] == b[0] && IsSubsequence(a[1..], b[1..]) {
        SubsequenceUnique(a[1..], b[1..]);
        SubsequenceMembers(a[1..], b[1..]);
        forall i, j | 0 <= i < j < |a| ensures a[i].id != a[j].id {
          if i == 0 {
            assert a[j] == a[1..][j - 1];
            var k :| 0 <= k < |b[1..]| && b[1..][k] == a[j];
            assert b[k + 1] == a[j];
          } else {
            assert a[i] == a[1..][i - 1] && a[j] == a[1..][j - 1];
          }
        }
      } else {
        SubsequenceUnique(a, b[1..]);
      }
    }
  }

  /** Every element of a subsequence is an element of the sequence. */
  lemma {:induction false} SubsequenceMembers(a: seq<Bookmark>, b: seq<Bookmark>)
    requires IsSubsequence(a, b)
    ensures forall i :: 0 <= i < |a| ==> exists k :: 0 <= k < |b| && b[k] == a[i]
    decreases |b|
  {
    if a != [] {
      if a[0] == b[0] && IsSubsequence(a[1..], b[1..]) {
        SubsequenceMembers(a[1..], b[1..]);
        forall i | 0 <= i < |a| ensures exists k :: 0 <= k < |b| && b[k] == a[i] {
          if i == 0 {
            assert b[0] == a[0];
          } else {
            assert a[i] == a[1..][i - 1];
            var k :| 0 <= k < |b[1..]| && b[1..][k] == a[1..][i - 1];
            assert b[k + 1] == a[i];
          }
        }
      } else {
        SubsequenceMembers(a, b[1..]);
        forall i | 0 <= i < |a| ensures exists k :: 0 <= k < |b| && b[k] == a[i] {
          var k :| 0 <= k < |b[1..]| && b[1..][k] == a[i];
          assert b[k + 1] == a[i];
        }
      }
    }
  }

  /** DELETE keeps the identifiers of an id-unique list pairwise distinct. */
  lemma DeletePreservesUnique(current: seq<Bookmark>, id: Id)
    requires UniqueIds(current)
    ensures UniqueIds(DeleteUpdate(current, id))
  {
    DeleteIsSubsequence(current, id);
    SubsequenceUnique(DeleteUpdate(current, id), current);
  }

  /** On an id-unique list, deleting a listed identifier removes exactly one record. */
  lemma {:induction false} DeletePresentShrinksByOne(current: seq<Bookmark>, id: Id)
    requires UniqueIds(current) && HasId(current, id)
    ensures |DeleteUpdate(current, id)| == |current| - 1
    decreases |current|
  {
    var tail := current[1..];
    assert UniqueIds(tail) by {
      forall i, j | 0 <= i < j < |tail| ensures tail[i].id != tail[j].id {
        assert tail[i] == current[i + 1] && tail[j] == current[j + 1];
      }
    }
    if current[0].id == id {
      assert !HasId(tail, id) by {
        forall i | 0 <= i < |tail| ensures tail[i].id != id {
          assert tail[i] == current[i + 1];
        }
      }
      DeleteAbsentUnchanged(tail, id);
    } else {
      assert HasId(tail, id) by {
        var i :| 0 <= i < |current| && current[i].id == id;
        assert tail[i - 1] == current[i];
      }
      DeletePresentShrinksByOne(tail, id);
    }
  }

  /** On an id-unique list the number of records equals the number of distinct identifiers. */
  lemma {:induction false} UniqueIdsCount(current: seq<Bookmark>)
    requires UniqueIds(current)
    ensures |IdSet(current)| == |current|
    decreases |current|
  {
    if current != [] {
      var tail := current[1..];
      assert UniqueIds(tail) by {
        forall i, j | 0 <= i < j < |tail| ensures tail[i].id != tail[j].id {
          assert tail[i] == current[i + 1] && tail[j] == current[j + 1];
        }
      }
      UniqueIdsCount(tail);
      assert current[0].id !in IdSet(tail) by {
        forall i | 0 <= i < |tail| ensures tail[i].id != current[0].id {
          assert tail[i] == current[i + 1];
        }
      }
      assert IdSet(current) == {current[0].id} + IdSet(tail);
    }
  }

  // ---------------------------------------------------------------------
  // Streams of realtime notifications

  /** One realtime notification on the user's channel. */
  datatype Event = Insert(rec: Bookmark) | Delete(id: Id)

  /** The list after one notification has been handled. */
  function Apply(current: seq<Bookmark>, e: Event): seq<Bookmark>
  {
    match e
    case Insert(rec) => InsertUpdate(current, rec)
    case Delete(id) => DeleteUpdate(current, id)
  }

  /** The list after a stream of notifications delivered in order. */
  function Replay(current: seq<Bookmark>, events: seq<Event>): seq<Bookmark>
    decreases |events|
  {
    if events == [] then current else Replay(Apply(current, events[0]), events[1..])
  }

  /** The identifiers carried by the INSERT notifications of a stream. */
  function InsertedIds(events: seq<Event>): set<Id>
    decreases |events|
  {
    if events == [] then {}
    else (if events[0].Insert? then {events[0].rec.id} else {}) + InsertedIds(events[1..])
  }

  /** Whatever notifications arrive, in whatever order, an id-unique list stays id-unique. */
  lemma {:induction false} ReplayPreservesUnique(current: seq<Bookmark>, events: seq<Event>)
    requires UniqueIds(current)
    ensures UniqueIds(Replay(current, events))
    decreases |events|
  {
    if events != [] {
      match events[0] {
        case Insert(rec) => InsertPreservesUnique(current, rec);
        case Delete(id) => DeletePreservesUnique(current, id);
      }
      ReplayPreservesUnique(Apply(current, events[0]), events[1..]);
    }
  }

  /** A stream of INSERTs adds exactly the identifiers it carries, whatever their order. */
  lemma {:induction false} ReplayInsertsIdSet(current: seq<Bookmark>, events: seq<Event>)
    requires forall k :: 0 <= k < |events| ==> events[k].Insert?
    ensures IdSet(Replay(current, events)) == IdSet(current) + InsertedIds(events)
    decreases |events|
  {
    if events != [] {
      ReplayInsertsIdSet(Apply(current, events[0]), events[1..]);
    }
  }

  /**
   * Starting from an empty list, a stream of INSERTs (duplicates included, in
   * any order) leaves one record per distinct identifier delivered.
   */
  lemma InsertStreamLength(events: seq<Event>)
    requires forall k :: 0 <= k < |events| ==> events[k].Insert?
    ensures |Replay([], events)| == |InsertedIds(events)|
  {
    ReplayPreservesUnique([], events);
    ReplayInsertsIdSet([], events);
    UniqueIdsCount(Replay([], events));
  }

  /** Snapshot [1], then INSERT 2 gives [2, 1]; DELETE 1 then gives [2], and a second DELETE 1 leaves [2]. */
  lemma InsertThenDeleteScenario(b1: Bookmark, b2: Bookmark)
    requires b1.id == "1" && b2.id == "2"
    ensures Replay([b1], [Insert(b2)]) == [b2, b1]
    ensures Replay([b1], [Insert(b2), Delete("1")]) == [b2]
    ensures Replay([b1], [Insert(b2), Delete("1"), Delete("1")]) == [b2]
  {
    assert !HasId([b1], "2");
    assert InsertUpdate([b1], b2) == [b2, b1];
    assert DeleteUpdate([b2, b1], "1") == [b2] by {
      assert [b2, b1][1..] == [b1];
      assert [b1][1..] == [];
    }
    var once := [Insert(b2), Delete("1")];
    var twice := once + [Delete("1")];
    assert Replay([b1], once) == Replay([b2, b1], once[1..]) == Replay([b2], once[2..]);
    assert Replay([b1], twice) == Replay([b2, b1], twice[1..]) == Replay([b2], twice[2..]);
    DeleteAbsentUnchanged([b2], "1");
    assert Replay([b2], twice[2..]) == Replay([b2], twice[3..]);
  }

  // ---------------------------------------------------------------------
  // The component's state

  /** The component state: the rendered list and the id whose delete is in flight. */
  class ListState {
    var bookmarks: seq<Bookmark>
    var deletingId: Option<Id>

    /** `useState(initialBookmarks)` and `useState(null)`. */
    constructor (initialBookmarks: seq<Bookmark>)
      ensures bookmarks == initialBookmarks && deletingId == None
    {
      bookmarks := initialBookmarks;
      deletingId := None;
    }

    /** The INSERT handler of the realtime channel. */
    method OnInsert(rec: Bookmark)
      modifies this`bookmarks
      ensures bookmarks == InsertUpdate(old(bookmarks), rec)
      ensures UniqueIds(old(bookmarks)) ==> UniqueIds(bookmarks)
      ensures deletingId == old(deletingId)
    {
      if UniqueIds(bookmarks) { InsertPreservesUnique(bookmarks, rec); }
      bookmarks := InsertUpdate(bookmarks, rec);
    }

    /** The DELETE handler of the realtime channel. */
    method OnDelete(id: Id)
      modifies this`bookmarks
      ensures bookmarks == DeleteUpdate(old(bookmarks), id)
      ensures UniqueIds(old(bookmarks)) ==> UniqueIds(bookmarks)
      ensures deletingId == old(deletingId)
    {
      if UniqueIds(bookmarks) { DeletePreservesUnique(bookmarks, id); }
      bookmarks := DeleteUpdate(bookmarks, id);
    }

    /** First half of `handleDelete`: mark `id` as pending before the storage request is sent. */
    method BeginDelete(id: Id)
      modifies this`deletingId
      ensures deletingId == Some(id)
      ensures bookmarks == old(bookmarks)
    {
      deletingId := Some(id);
    }

    /**
     * Second half of `handleDelete`, once the storage request has answered
     * (`ok` is its outcome): an alert is raised on failure, and the pending
     * slot is cleared either way. The list is never touched here.
     */
    method CompleteDelete(ok: bool) returns (alerted: bool)
      modifies this`deletingId
      ensures alerted == !ok
      ensures deletingId == None
      ensures bookmarks == old(bookmarks)
    {
      alerted := !ok;
      deletingId := None;
    }
  }
}
