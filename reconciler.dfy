/**
 * The local bookmark list and the three keyed transformations that keep it in
 * step with the backend's change stream: prepend on insert, filter out by id on
 * delete, replace by id on update. Each is a pure function of the current list
 * and one event.
 */
module Reconciler {

  /** One row of the `bookmarks` table as the list view holds it. */
  datatype Bookmark = Bookmark(id: string, url: string, title: string, createdAt: string)

  /**
   * A change-stream notification. `Delete` carries the id of the old row;
   * `Insert` and `Update` carry the new row; `Other` is any event type the
   * callback does not recognise.
   */
  datatype Event = Insert(row: Bookmark) | Delete(id: string) | Update(row: Bookmark) | Other

  /** The list with every record whose id is `id` filtered out. */
  function RemoveById(list: seq<Bookmark>, id: string): (r: seq<Bookmark>)
    ensures |r| <= |list|
    ensures forall x :: x in r ==> x in list && x.id != id
  {
    if list == [] then []
    else if list[0].id == id then RemoveById(list[1..], id)
    else [list[0]] + RemoveById(list[1..], id)
  }

  /** The list with every record whose id is that of `row` replaced by `row`. */
  function ReplaceById(list: seq<Bookmark>, row: Bookmark): (r: seq<Bookmark>)
    ensures |r| == |list|
  {
    if list == [] then []
    else [if list[0].id == row.id then row else list[0]] + ReplaceById(list[1..], row)
  }

  /** The list after the realtime callback has handled event `e`. */
  function Apply(list: seq<Bookmark>, e: Event): (r: seq<Bookmark>)
    ensures e.Insert? ==> |r| == |list| + 1
    ensures e.Delete? ==> |r| <= |list|
    ensures e.Update? ==> |r| == |list|
    ensures e.Other? ==> r == list
  {
    match e
    case Insert(row) => [row] + list
    case Delete(id) => RemoveById(list, id)
    case Update(row) => ReplaceById(list, row)
    case Other => list
  }

  /**
   * The list after the events `es` have been delivered in order; each event
   * adds at most one record.
   */
  function ApplyAll(list: seq<Bookmark>, es: seq<Event>): (r: seq<Bookmark>)
    ensures |r| <= |list| + |es|
    decreases |es|
  {
    if es == [] then list else ApplyAll(Apply(list, es[0]), es[1..])
  }

  /** The rows carried by the insert and update events of `es`. */
  ghost function Payloads(es: seq<Event>): set<Bookmark>
  {
    set k | 0 <= k < |es| && (es[k].Insert? || es[k].Update?) :: es[k].row
  }

  /** `a` is `b` with some elements left out, the rest in their original order. */
  ghost predicate IsSubsequence<T>(a: seq<T>, b: seq<T>)
    decreases |b|
  {
    a == [] || (b != [] && (IsSubsequence(a, b[1..]) || (a[0] == b[0] && IsSubsequence(a[1..], b[1..]))))
  }

  // ---------------------------------------------------------------------------
  // Insert

  /** An insert puts the new row at the head and shifts the old list down by one. */
  lemma InsertPrepends(list: seq<Bookmark>, row: Bookmark)
    ensures |Apply(list, Insert(row))| == |list| + 1
    ensures Apply(list, Insert(row))[0] == row
    ensures Apply(list, Insert(row))[1..] == list
  {
  }

  /** An insert does not look for an existing record with the same id: both stay. */
  lemma InsertKeepsDuplicateId(list: seq<Bookmark>, row: Bookmark, i: nat)
    requires i < |list| && list[i].id == row.id
    ensures var r := Apply(list, Insert(row));
      i + 1 < |r| && r[0].id == row.id && r[i + 1].id == row.id && r[i + 1] == list[i]
  {
  }

  // ---------------------------------------------------------------------------
  // Delete

  /**
   * Deleting removes every copy of a record with that id and keeps every other
   * record exactly as often as it was there.
   */
  lemma {:induction false} RemoveByIdCounts(list: seq<Bookmark>, id: string, x: Bookmark)
    ensures multiset(RemoveById(list, id))[x] == if x.id == id then 0 else multiset(list)[x]
    ensures x in RemoveById(list, id) <==> x in list && x.id != id
  {
    if list != [] {
      RemoveByIdCounts(list[1..], id, x);
      assert list == [list[0]] + list[1..];
    }
  }

  /** Deleting keeps the surviving records in their original relative order. */
  lemma {:induction false} RemoveByIdIsSubsequence(list: seq<Bookmark>, id: string)
    ensures IsSubsequence(RemoveById(list, id), list)
  {
    if list != [] {
      RemoveByIdIsSubsequence(list[1..], id);
      var r := RemoveById(list, id);
      if list[0].id != id {
        assert r[0] == list[0] && r[1..] == RemoveById(list[1..], id);
      }
    }
  }

  /** Deleting an id changes the list exactly when some record has that id. */
  lemma {:induction false} RemoveByIdUnchanged(list: seq<Bookmark>, id: string)
    ensures RemoveById(list, id) == list <==> forall x :: x in list ==> x.id != id
  {
    if list != [] {
      RemoveByIdUnchanged(list[1..], id);
      if list[0].id != id {
        assert list == [list[0]] + list[1..];
      }
    }
  }

  /** Deleting the same id a second time (a local delete and its echo) changes nothing. */
  lemma {:induction false} RemoveByIdIdempotent(list: seq<Bookmark>, id: string)
    ensures RemoveById(RemoveById(list, id), id) == RemoveById(list, id)
  {
    RemoveByIdUnchanged(RemoveById(list, id), id);
  }

  /** Two deletes give the same list whichever is delivered first. */
  lemma {:induction false} RemoveByIdCommutes(list: seq<Bookmark>, a: string, b: string)
    ensures RemoveById(RemoveById(list, a), b) == RemoveById(RemoveById(list, b), a)
  {
    if list != [] {
      RemoveByIdCommutes(list[1..], a, b);
    }
  }

  /** Deleting the id of a just-inserted row also removes every older copy of it. */
  lemma DeleteAfterInsert(list: seq<Bookmark>, row: Bookmark)
    ensures Apply(Apply(list, Insert(row)), Delete(row.id)) == RemoveById(list, row.id)
  {
  }

  /** When the id was new, deleting it right after the insert restores the old list. */
  lemma DeleteUndoesInsert(list: seq<Bookmark>, row: Bookmark)
    requires forall x :: x in list ==> x.id != row.id
    ensures Apply(Apply(list, Insert(row)), Delete(row.id)) == list
  {
    DeleteAfterInsert(list, row);
    RemoveByIdUnchanged(list, row.id);
  }

  // ---------------------------------------------------------------------------
  // Update

  /** Update replaces, position by position, exactly the records whose id matches. */
  lemma {:induction false} ReplaceByIdAt(list: seq<Bookmark>, row: Bookmark, i: nat)
    requires i < |list|
    ensures ReplaceById(list, row)[i] == if list[i].id == row.id then row else list[i]
  {
    if i > 0 {
      ReplaceByIdAt(list[1..], row, i - 1);
    }
  }

  /** Update keeps every record at its position: the sequence of ids is unchanged. */
  lemma {:induction false} ReplaceByIdKeepsIds(list: seq<Bookmark>, row: Bookmark)
    ensures forall i :: 0 <= i < |list| ==> ReplaceById(list, row)[i].id == list[i].id
  {
    forall i | 0 <= i < |list|
      ensures ReplaceById(list, row)[i].id == list[i].id
    {
      ReplaceByIdAt(list, row, i);
    }
  }

  /** An update changes the list exactly when some record with that id differs from the payload. */
  lemma {:induction false} ReplaceByIdUnchanged(list: seq<Bookmark>, row: Bookmark)
    ensures ReplaceById(list, row) == list <==> forall x :: x in list && x.id == row.id ==> x == row
  {
    if list != [] {
      ReplaceByIdUnchanged(list[1..], row);
      assert list == [list[0]] + list[1..];
    }
  }

  /** Receiving the same update twice is the same as receiving it once. */
  lemma {:induction false} ReplaceByIdIdempotent(list: seq<Bookmark>, row: Bookmark)
    ensures ReplaceById(ReplaceById(list, row), row) == ReplaceById(list, row)
  {
    if list != [] {
      ReplaceByIdIdempotent(list[1..], row);
    }
  }

  // ---------------------------------------------------------------------------
  // Any event, and sequences of events

  /** Every record after an event was either there before or is the event's payload. */
  lemma ApplyProvenance(list: seq<Bookmark>, e: Event, x: Bookmark)
    requires x in Apply(list, e)
    ensures x in list || ((e.Insert? || e.Update?) && x == e.row)
  {
    match e
    case Insert(row) =>
    case Delete(id) =>
    case Update(row) =>
      var i :| 0 <= i < |list| && ReplaceById(list, row)[i] == x;
      ReplaceByIdAt(list, row, i);
    case Other =>
  }

  /**
   * The list never invents a record: after any run of events every record came
   * from the list before or from the payload of an insert or update in the run.
   */
  lemma {:induction false} ApplyAllProvenance(list: seq<Bookmark>, es: seq<Event>, x: Bookmark)
    requires x in ApplyAll(list, es)
    ensures x in list || x in Payloads(es)
    decreases |es|
  {
    if es != [] {
      ApplyAllProvenance(Apply(list, es[0]), es[1..], x);
      if x in Payloads(es[1..]) {
        var k :| 0 <= k < |es[1..]| && (es[1..][k].Insert? || es[1..][k].Update?) && es[1..][k].row == x;
        assert es[k + 1] == es[1..][k];
      } else {
        ApplyProvenance(list, es[0], x);
      }
    }
  }

  /**
   * In a run of inserts and deletes, a record of the starting list survives
   * when no delete in the run names its id.
   */
  lemma {:induction false} ApplyAllKeepsUndeleted(list: seq<Bookmark>, es: seq<Event>, x: Bookmark)
    requires forall k :: 0 <= k < |es| ==> es[k].Insert? || es[k].Delete?
    requires x in list
    requires forall k :: 0 <= k < |es| && es[k].Delete? ==> es[k].id != x.id
    ensures x in ApplyAll(list, es)
    decreases |es|
  {
    if es != [] {
      if es[0].Delete? {
        RemoveByIdCounts(list, es[0].id, x);
      }
      ApplyAllKeepsUndeleted(Apply(list, es[0]), es[1..], x);
    }
  }

  /**
   * In a run of inserts and deletes, a row inserted at step k is in the final
   * list when no later delete names its id.
   */
  lemma {:induction false} ApplyAllKeepsInserted(list: seq<Bookmark>, es: seq<Event>, k: nat)
    requires forall j :: 0 <= j < |es| ==> es[j].Insert? || es[j].Delete?
    requires k < |es| && es[k].Insert?
    requires forall j :: k < j < |es| && es[j].Delete? ==> es[j].id != es[k].row.id
    ensures es[k].row in ApplyAll(list, es)
    decreases |es|
  {
    if k == 0 {
      ApplyAllKeepsUndeleted(Apply(list, es[0]), es[1..], es[0].row);
    } else {
      ApplyAllKeepsInserted(Apply(list, es[0]), es[1..], k - 1);
    }
  }

  /**
   * An id that no record of the list carries stays absent through any run of
   * events that inserts no row with it; updates and deletes never bring it in.
   */
  lemma {:induction false} NoIdStays(list: seq<Bookmark>, es: seq<Event>, id: string)
    requires forall x :: x in list ==> x.id != id
    requires forall j :: 0 <= j < |es| && es[j].Insert? ==> es[j].row.id != id
    ensures forall x :: x in ApplyAll(list, es) ==> x.id != id
    decreases |es|
  {
    if es != [] {
      var next := Apply(list, es[0]);
      if es[0].Update? {
        forall x | x in next
          ensures x.id != id
        {
          var i :| 0 <= i < |next| && next[i] == x;
          ReplaceByIdAt(list, es[0].row, i);
        }
      }
      NoIdStays(next, es[1..], id);
    }
  }

  /**
   * Once a delete at step k names an id, no record with that id is in the final
   * list unless a later insert brings one back.
   */
  lemma {:induction false} ApplyAllDeletedGone(list: seq<Bookmark>, es: seq<Event>, k: nat, x: Bookmark)
    requires k < |es| && es[k].Delete?
    requires forall j :: k < j < |es| && es[j].Insert? ==> es[j].row.id != es[k].id
    requires x.id == es[k].id
    ensures x !in ApplyAll(list, es)
    decreases |es|
  {
    if k == 0 {
      forall y | y in Apply(list, es[0])
        ensures y.id != es[0].id
      {
        RemoveByIdCounts(list, es[0].id, y);
      }
      NoIdStays(Apply(list, es[0]), es[1..], es[0].id);
    } else {
      ApplyAllDeletedGone(Apply(list, es[0]), es[1..], k - 1, x);
    }
  }

  /** A run of deletes and unrecognised events only ever removes records, in order. */
  lemma {:induction false} ApplyAllDeletesIsSubsequence(list: seq<Bookmark>, es: seq<Event>)
    requires forall k :: 0 <= k < |es| ==> es[k].Delete? || es[k].Other?
    ensures IsSubsequence(ApplyAll(list, es), list)
    decreases |es|
  {
    if es != [] {
      var next := Apply(list, es[0]);
      ApplyAllDeletesIsSubsequence(next, es[1..]);
      if es[0].Delete? {
        RemoveByIdIsSubsequence(list, es[0].id);
      } else {
        SubsequenceReflexive(list);
      }
      SubsequenceTransitive(ApplyAll(next, es[1..]), next, list);
    } else {
      SubsequenceReflexive(list);
    }
  }

  lemma {:induction false} SubsequenceReflexive<T>(a: seq<T>)
    ensures IsSubsequence(a, a)
    decreases |a|
  {
    if a != [] {
      SubsequenceReflexive(a[1..]);
    }
  }

  lemma {:induction false} SubsequenceTransitive<T>(a: seq<T>, b: seq<T>, c: seq<T>)
    requires IsSubsequence(a, b) && IsSubsequence(b, c)
    ensures IsSubsequence(a, c)
    decreases |c|
  {
    if a != [] {
      assert b != [] && c != [];
      if IsSubsequence(b, c[1..]) {
        SubsequenceTransitive(a, b, c[1..]);
      } else {
        assert b[0] == c[0] && IsSubsequence(b[1..], c[1..]);
        if IsSubsequence(a, b[1..]) {
          SubsequenceTransitive(a, b[1..], c[1..]);
        } else {
          SubsequenceTransitive(a[1..], b[1..], c[1..]);
        }
      }
    }
  }
}
