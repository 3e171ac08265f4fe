/**
  The draft store of `src/lib/threads.ts`.

  The browser's key-value medium holds, under one key, the whole collection
  of drafts. Every operation reads that collection in full and, when it
  changes it, writes it back in full. The medium is modelled by `Stored`;
  JSON encoding and decoding are abstracted away, so a well-formed value is
  simply the sequence of drafts it encodes.
*/
module Threads {
  import opened Base

  /** One persisted thread draft. Timestamps are epoch milliseconds. */
  datatype Thread = Thread(
    id: string,
    topic: string,
    tweets: seq<string>,
    createdAt: int,
    updatedAt: int)

  /** What the medium holds under the drafts key. `Missing` stands for both
      an absent key and an empty string (both are falsy in the source). */
  datatype Stored = Missing | Unparseable | Json(threads: seq<Thread>)

  /** No draft in `ts` carries `id`. */
  predicate Absent(ts: seq<Thread>, id: string)
  {
    forall i :: 0 <= i < |ts| ==> ts[i].id != id
  }

  /** No two drafts in `ts` share an id. */
  predicate UniqueIds(ts: seq<Thread>)
  {
    forall i, j :: 0 <= i < j < |ts| ==> ts[i].id != ts[j].id
  }

  // ---------------------------------------------------------------------------
  // The collection as a sequence
  // ---------------------------------------------------------------------------

  /** `Array.prototype.findIndex` with the predicate `t.id === id`:
      the first position holding `id`, or -1. */
  function FindIndex(ts: seq<Thread>, id: string): (r: int)
    ensures -1 <= r < |ts|
    ensures r == -1 <==> Absent(ts, id)
    ensures r >= 0 ==> ts[r].id == id && Absent(ts[..r], id)
  {
    if |ts| == 0 then -1
    else if ts[0].id == id then 0
    else
      var k := FindIndex(ts[1..], id);
      if k < 0 then -1
      else
        assert ts[1..][..k] == ts[1..k + 1];
        k + 1
  }

  /** A position holding `id` with no earlier one holding it is the position
      `FindIndex` reports. */
  lemma FirstIndexIsFindIndex(ts: seq<Thread>, id: string, k: int)
    requires 0 <= k < |ts| && ts[k].id == id && Absent(ts[..k], id)
    ensures FindIndex(ts, id) == k
  {
  }

  /** `Array.prototype.find` with the predicate `t.id === id`. */
  function Find(ts: seq<Thread>, id: string): (r: Option<Thread>)
    ensures r.None? <==> Absent(ts, id)
    ensures r.Some? ==> r.value.id == id
    ensures r.Some? ==> exists i :: 0 <= i < |ts| && ts[i] == r.value && Absent(ts[..i], id)
  {
    var k := FindIndex(ts, id);
    if k < 0 then None else Some(ts[k])
  }

  /** The body of `saveThread`: replace the first draft with the same id in
      place, or put the draft at the front when its id is new. */
  function Upsert(ts: seq<Thread>, t: Thread): (r: seq<Thread>)
    ensures !Absent(ts, t.id) ==>
      |r| == |ts| &&
      r[FindIndex(ts, t.id)] == t &&
      forall j :: 0 <= j < |ts| && j != FindIndex(ts, t.id) ==> r[j] == ts[j]
    ensures Absent(ts, t.id) ==> r == [t] + ts
    ensures Find(r, t.id) == Some(t)
    ensures forall other :: other != t.id ==> Find(r, other) == Find(ts, other)
    ensures UniqueIds(ts) ==> UniqueIds(r)
  {
    var k := FindIndex(ts, t.id);
    if k >= 0 then
      var r := ts[k := t];
      assert r[..k] == ts[..k];
      FirstIndexIsFindIndex(r, t.id, k);
      FindOtherAfterReplace(ts, k, t);
      r
    else
      var r := [t] + ts;
      assert r[1..] == ts;
      r
  }

  /** Replacing the draft at `k` by one with the same id leaves every other
      id's lookup unchanged. */
  lemma {:induction false} FindOtherAfterReplace(ts: seq<Thread>, k: int, t: Thread)
    requires 0 <= k < |ts| && ts[k].id == t.id
    ensures forall other :: other != t.id ==> Find(ts[k := t], other) == Find(ts, other)
  {
    forall other | other != t.id
      ensures Find(ts[k := t], other) == Find(ts, other)
    {
      var r := ts[k := t];
      assert forall i :: 0 <= i < |ts| ==> (r[i].id == other <==> ts[i].id == other);
      var b := FindIndex(ts, other);
      if b >= 0 {
        assert Absent(r[..b], other) by {
          assert forall i :: 0 <= i < b ==> r[..b][i].id == ts[..b][i].id;
        }
        FirstIndexIsFindIndex(r, other, b);
      }
    }
  }

  /** The body of `deleteThread`: `filter((t) => t.id !== id)`. */
  function Without(ts: seq<Thread>, id: string): (r: seq<Thread>)
    ensures |r| <= |ts|
    ensures Absent(r, id)
    ensures forall t :: t in r <==> t in ts && t.id != id
    ensures Absent(ts, id) ==> r == ts
  {
    if |ts| == 0 then []
    else if ts[0].id == id then Without(ts[1..], id)
    else
      var rest := Without(ts[1..], id);
      assert forall t :: t in ts <==> t == ts[0] || t in ts[1..];
      [ts[0]] + rest
  }

  /** Looking up in a non-empty collection inspects its head first. */
  lemma FindCons(ts: seq<Thread>, id: string)
    requires |ts| > 0
    ensures Find(ts, id) == if ts[0].id == id then Some(ts[0]) else Find(ts[1..], id)
  {
  }

  /** Saving the same draft a second time changes nothing: no duplicate is
      created and the entry saved first is left as it is. */
  lemma UpsertIdempotent(ts: seq<Thread>, t: Thread)
    ensures Upsert(Upsert(ts, t), t) == Upsert(ts, t)
  {
  }

  /** Filtering distributes over concatenation, so the drafts that survive a
      delete keep their relative order. */
  lemma {:induction false} WithoutAppend(a: seq<Thread>, b: seq<Thread>, id: string)
    ensures Without(a + b, id) == Without(a, id) + Without(b, id)
  {
    if |a| == 0 {
      assert a + b == b;
    } else {
      assert (a + b)[0] == a[0];
      assert (a + b)[1..] == a[1..] + b;
      WithoutAppend(a[1..], b, id);
    }
  }

  /** Deleting one id leaves the lookup of every other id as it was. */
  lemma {:induction false} WithoutFindOther(ts: seq<Thread>, id: string, other: string)
    requires other != id
    ensures Find(Without(ts, id), other) == Find(ts, other)
  {
    if |ts| > 0 {
      WithoutFindOther(ts[1..], id, other);
      FindCons(ts, other);
      if ts[0].id != id {
        var rest := Without(ts[1..], id);
        var r := [ts[0]] + rest;
        assert r[1..] == rest;
        FindCons(r, other);
      }
    }
  }

  /** With unique ids, deleting an id that is present shrinks the collection
      by exactly one. */
  lemma {:induction false} WithoutUniqueLength(ts: seq<Thread>, id: string)
    requires UniqueIds(ts) && !Absent(ts, id)
    ensures |Without(ts, id)| == |ts| - 1
  {
    if ts[0].id == id {
      assert Absent(ts[1..], id) by {
        forall i | 0 <= i < |ts[1..]| ensures ts[1..][i].id != id {
          assert ts[1..][i] == ts[i + 1];
        }
      }
    } else {
      assert !Absent(ts[1..], id) by {
        var i :| 0 <= i < |ts| && ts[i].id == id;
        assert ts[1..][i - 1] == ts[i];
      }
      WithoutUniqueLength(ts[1..], id);
    }
  }

  /** Deleting keeps the ids unique. */
  lemma {:induction false} WithoutKeepsUnique(ts: seq<Thread>, id: string)
    requires UniqueIds(ts)
    ensures UniqueIds(Without(ts, id))
  {
    if |ts| > 0 {
      WithoutKeepsUnique(ts[1..], id);
      if ts[0].id != id {
        var x := ts[0];
        assert forall t :: t in ts[1..] ==> t.id != x.id by {
          forall t | t in ts[1..] ensures t.id != x.id {
            var m :| 0 <= m < |ts[1..]| && ts[1..][m] == t;
            assert ts[m + 1] == t;
          }
        }
        ConsUnique(x, Without(ts[1..], id));
      }
    }
  }

  /** A draft whose id no draft of `rest` carries may be put in front of a
      collection with unique ids. */
  lemma ConsUnique(x: Thread, rest: seq<Thread>)
    requires UniqueIds(rest)
    requires forall t :: t in rest ==> t.id != x.id
    ensures UniqueIds([x] + rest)
  {
    var r := [x] + rest;
    forall i, j | 0 <= i < j < |r| ensures r[i].id != r[j].id {
      assert r[j] == rest[j - 1];
      if i > 0 {
        assert r[i] == rest[i - 1];
      }
    }
  }

  /** Deleting a draft just saved under a new id gives back the collection
      it was saved into. */
  lemma UpsertThenWithout(ts: seq<Thread>, t: Thread)
    requires Absent(ts, t.id)
    ensures Without(Upsert(ts, t), t.id) == ts
  {
  }

  // ---------------------------------------------------------------------------
  // The collection behind the medium
  // ---------------------------------------------------------------------------

  /** `getThreads`: a missing or unreadable value is never an error; it
      reads as the empty collection. */
  function GetThreads(st: Stored): (r: seq<Thread>)
    ensures st.Json? ==> r == st.threads
    ensures !st.Json? ==> r == []
  {
    match st
    case Json(ts) => ts
    case _ => []
  }

  /** `localStorage.setItem(STORAGE_KEY, JSON.stringify(threads))`. */
  function Write(ts: seq<Thread>): (r: Stored)
    ensures GetThreads(r) == ts
  {
    Json(ts)
  }

  /** `getThread`. */
  function GetThread(st: Stored, id: string): (r: Option<Thread>)
    ensures r.None? <==> Absent(GetThreads(st), id)
    ensures r.Some? ==> r.value.id == id && r.value in GetThreads(st)
  {
    Find(GetThreads(st), id)
  }

  /** `saveThread`: the collection is read, upserted and written back. */
  function SaveThread(st: Stored, t: Thread): (r: Stored)
    ensures GetThread(r, t.id) == Some(t)
    ensures forall other :: other != t.id ==> GetThread(r, other) == GetThread(st, other)
    ensures Absent(GetThreads(st), t.id) ==> GetThreads(r) == [t] + GetThreads(st)
    ensures !Absent(GetThreads(st), t.id) ==> |GetThreads(r)| == |GetThreads(st)|
    ensures UniqueIds(GetThreads(st)) ==> UniqueIds(GetThreads(r))
  {
    Write(Upsert(GetThreads(st), t))
  }

  /** `deleteThread`: the collection is read, filtered and written back. */
  function DeleteThread(st: Stored, id: string): (r: Stored)
    ensures GetThread(r, id) == None
    ensures forall t :: t in GetThreads(r) <==> t in GetThreads(st) && t.id != id
    ensures Absent(GetThreads(st), id) ==> GetThreads(r) == GetThreads(st)
    ensures forall other :: other != id ==> GetThread(r, other) == GetThread(st, other)
    ensures UniqueIds(GetThreads(st)) && !Absent(GetThreads(st), id) ==>
      |GetThreads(r)| == |GetThreads(st)| - 1
    ensures UniqueIds(GetThreads(st)) ==> UniqueIds(GetThreads(r))
  {
    var ts := GetThreads(st);
    assert forall other :: other != id ==> Find(Without(ts, id), other) == Find(ts, other) by {
      forall other | other != id ensures Find(Without(ts, id), other) == Find(ts, other) {
        WithoutFindOther(ts, id, other);
      }
    }
    assert UniqueIds(ts) ==> UniqueIds(Without(ts, id)) by {
      if UniqueIds(ts) { WithoutKeepsUnique(ts, id); }
    }
    assert UniqueIds(ts) && !Absent(ts, id) ==> |Without(ts, id)| == |ts| - 1 by {
      if UniqueIds(ts) && !Absent(ts, id) { WithoutUniqueLength(ts, id); }
    }
    Write(Without(ts, id))
  }

  /** Saving the same draft twice leaves the medium as saving it once. */
  lemma SaveThreadIdempotent(st: Stored, t: Thread)
    ensures SaveThread(SaveThread(st, t), t) == SaveThread(st, t)
  {
  }

  /** A draft saved under a new id and then deleted leaves the collection as
      it was before the save. */
  lemma SaveThenDelete(st: Stored, t: Thread)
    requires GetThread(st, t.id) == None
    ensures GetThreads(DeleteThread(SaveThread(st, t), t.id)) == GetThreads(st)
  {
  }
}
