/**
  The post-list logic of `src/components/ThreadEditor.tsx`, lifted out of
  the component's state setters.

  The editor's state is an `Editor` record; each handler is a pure function
  (or, for the scaffold loop, a method) from the state it reads to the state
  it sets. Toasts, rendering and the drag-over highlight are not modelled.
  The clock and the id generator are parameters (`now`, `freshId`).
*/
module ThreadEditor {
  import opened Base
  import opened Text
  import Threads

  /** The call to action seeded into the last slot of a new scaffold. */
  const DefaultCta: string :=
    "Kalau thread ini bermanfaat, RT tweet pertama biar lebih banyak yang baca \U{1F64F}"

  /** A post longer than this blocks saving. */
  const MaxPostLength: int := 280

  /** The fewest posts a scaffold has and removal leaves. */
  const MinPosts: int := 3

  /** The component's state: topic input, chosen post count, the posts, the
      started flag and the index of the card being dragged. */
  datatype Editor = Editor(
    topic: string,
    tweetCount: int,
    tweets: seq<string>,
    started: bool,
    dragIdx: Option<int>)

  /** The state a freshly mounted editor starts from. */
  const Initial: Editor := Editor("", 5, [], false, None)

  /** Why a save was refused. */
  datatype EditorError = EmptyTopic | OverLimit

  /** `!s.trim()`: the topic is empty once white space is stripped. */
  predicate Blank(s: string)
  {
    Trim(s) == ""
  }

  /** `!!threadId`: an id is given and is not the empty string. */
  predicate Truthy(threadId: Option<string>)
  {
    threadId.Some? && threadId.value != ""
  }

  /** `ts` is the scaffold of `n` posts: an empty hook, empty body slots and
      the default call to action last. */
  predicate IsScaffold(ts: seq<string>, n: int)
  {
    && n >= 1
    && |ts| == n
    && ts[0] == ""
    && ts[n - 1] == DefaultCta
    && forall k :: 0 < k < n - 1 ==> ts[k] == ""
  }

  // ---------------------------------------------------------------------------
  // Loading and starting
  // ---------------------------------------------------------------------------

  /** The mount effect: when editing an id the store knows, the topic and
      posts are taken from the stored draft and the editor starts; otherwise
      nothing changes. */
  function Load(e: Editor, threadId: Option<string>, st: Threads.Stored): (e': Editor)
    ensures Truthy(threadId) && Threads.GetThread(st, threadId.value).Some? ==>
      var t := Threads.GetThread(st, threadId.value).value;
      e' == e.(topic := t.topic, tweets := t.tweets, started := true)
    ensures !Truthy(threadId) || Threads.GetThread(st, threadId.value).None? ==> e' == e
  {
    if Truthy(threadId) then
      match Threads.GetThread(st, threadId.value)
      case Some(t) => e.(topic := t.topic, tweets := t.tweets, started := true)
      case None => e
    else e
  }

  /** `startWriting`: refused, with nothing changed, when the topic is blank;
      otherwise the posts become the scaffold of `max(tweetCount, 3)` slots
      and the editor starts. */
  method StartWriting(e: Editor) returns (e': Editor, ok: bool)
    ensures ok <==> !Blank(e.topic)
    ensures !ok ==> e' == e
    ensures ok ==> e' == e.(tweets := e'.tweets, started := true)
    ensures ok ==> IsScaffold(e'.tweets, Max(e.tweetCount, MinPosts))
  {
    if Blank(e.topic) {
      return e, false;
    }
    var newTweets: seq<string> := [""];
    var bodySlots := Max(e.tweetCount - 2, 1);
    var i := 1;
    while i <= bodySlots
      invariant 1 <= i <= bodySlots + 1
      invariant |newTweets| == i
      invariant forall k :: 0 <= k < |newTweets| ==> newTweets[k] == ""
    {
      newTweets := newTweets + [""];
      i := i + 1;
    }
    newTweets := newTweets + [DefaultCta];
    e' := e.(tweets := newTweets, started := true);
    ok := true;
  }

  // ---------------------------------------------------------------------------
  // Editing the post list
  // ---------------------------------------------------------------------------

  /** `updateTweet`: `map` that swaps in `value` at `index`. An index that is
      not a position of the list matches nothing and changes nothing. */
  function UpdateTweet(ts: seq<string>, index: int, value: string): (r: seq<string>)
    ensures 0 <= index < |ts| ==> r == ts[index := value]
    ensures !(0 <= index < |ts|) ==> r == ts
  {
    seq(|ts|, i requires 0 <= i < |ts| => if i == index then value else ts[i])
  }

  /** `removeTweet`: refused when at most three posts remain; otherwise the
      `filter` drops exactly the post at `index` and closes the gap. */
  function RemoveTweet(ts: seq<string>, index: int): (r: seq<string>)
    ensures |ts| <= MinPosts ==> r == ts
    ensures |ts| >= MinPosts ==> |r| >= MinPosts
    ensures |ts| > MinPosts && 0 <= index < |ts| ==>
      && |r| == |ts| - 1
      && (forall j :: 0 <= j < index ==> r[j] == ts[j])
      && (forall j {:trigger r[j]} :: index <= j < |r| ==> r[j] == ts[j + 1])
      && multiset(r) + multiset{ts[index]} == multiset(ts)
    ensures !(0 <= index < |ts|) ==> r == ts
  {
    if |ts| <= MinPosts then ts
    else if 0 <= index < |ts| then DropAt(ts, index)
    else ts
  }

  /** The index `Array.prototype.slice` starts or stops at: a negative `k`
      counts back from the end, and the result is clamped to `0..len`. */
  function SliceIndex(k: int, len: nat): (n: nat)
    ensures n <= len
    ensures 0 <= k <= len ==> n == k
    ensures k < 0 ==> n == Max(len + k, 0)
    ensures k > len ==> n == len
  {
    if k < 0 then Max(len + k, 0) else Min(k, len)
  }

  /** `a.slice(start, end)`. */
  function Slice(a: seq<string>, start: int, end: int): (r: seq<string>)
    ensures 0 <= start <= end <= |a| ==> r == a[start..end]
  {
    var s := SliceIndex(start, |a|);
    var e := SliceIndex(end, |a|);
    if s <= e then a[s..e] else []
  }

  /** `addTweet`: a new empty slot goes immediately before the last post, so
      the call to action stays last. On an empty list `slice(0, -1)` and
      `slice(-1)` are both empty, and the result is the single empty slot. */
  function AddTweet(ts: seq<string>): (r: seq<string>)
    ensures |r| == |ts| + 1
    ensures |ts| == 0 ==> r == [""]
    ensures |ts| > 0 ==>
      && r[|ts| - 1] == ""
      && r[|ts|] == ts[|ts| - 1]
      && r[..|ts| - 1] == ts[..|ts| - 1]
    ensures multiset(r) == multiset(ts) + multiset{""}
  {
    var insertAt := |ts| - 1;
    var r := Slice(ts, 0, insertAt) + [""] + Slice(ts, insertAt, |ts|);
    assert |ts| > 0 ==> ts == ts[..insertAt] + ts[insertAt..];
    r
  }

  /** `ts` with the element at `k` taken out. */
  function DropAt(ts: seq<string>, k: int): (r: seq<string>)
    requires 0 <= k < |ts|
    ensures |r| == |ts| - 1
    ensures forall j {:trigger r[j]} :: 0 <= j < |r| ==> r[j] == if j < k then ts[j] else ts[j + 1]
    ensures multiset(r) + multiset{ts[k]} == multiset(ts)
  {
    assert ts == ts[..k] + [ts[k]] + ts[k + 1..];
    ts[..k] + ts[k + 1..]
  }

  /** `ts` with `x` put in at `k`, the elements from `k` on shifted right. */
  function InsertAt(ts: seq<string>, k: int, x: string): (r: seq<string>)
    requires 0 <= k <= |ts|
    ensures |r| == |ts| + 1
    ensures forall j {:trigger r[j]} :: 0 <= j < |r| ==> r[j] == if j < k then ts[j] else if j == k then x else ts[j - 1]
    ensures multiset(r) == multiset(ts) + multiset{x}
  {
    assert ts == ts[..k] + ts[k..];
    ts[..k] + [x] + ts[k..]
  }

  /** The two splices of `handleDrop`: take the post at `from` out, then put
      it back in at `to`. Posts outside the span between the two indices keep
      their place; those inside shift by one toward `from`. */
  function MoveTweet(ts: seq<string>, from: int, to: int): (r: seq<string>)
    requires 0 <= from < |ts| && 0 <= to < |ts|
    ensures |r| == |ts|
    ensures r[to] == ts[from]
    ensures multiset(r) == multiset(ts)
    ensures forall j :: 0 <= j < |ts| && (j < Min(from, to) || j > Max(from, to)) ==> r[j] == ts[j]
    ensures forall j {:trigger r[j]} :: from <= j < to ==> r[j] == ts[j + 1]
    ensures forall j {:trigger r[j]} :: to < j <= from ==> r[j] == ts[j - 1]
  {
    InsertAt(DropAt(ts, from), to, ts[from])
  }

  /** `handleDrop(to)`: nothing happens without a drag source or when the
      card is dropped on itself; otherwise the dragged post moves to `to`
      and the drag source is cleared. */
  function HandleDrop(e: Editor, to: int): (e': Editor)
    requires 0 <= to < |e.tweets|
    requires e.dragIdx.Some? ==> 0 <= e.dragIdx.value < |e.tweets|
    ensures e.dragIdx.None? || e.dragIdx.value == to ==> e' == e
    ensures e.dragIdx.Some? && e.dragIdx.value != to ==>
      && e' == e.(tweets := e'.tweets, dragIdx := None)
      && |e'.tweets| == |e.tweets|
      && e'.tweets[to] == e.tweets[e.dragIdx.value]
      && multiset(e'.tweets) == multiset(e.tweets)
  {
    match e.dragIdx
    case None => e
    case Some(from) =>
      if from == to then e
      else e.(tweets := MoveTweet(e.tweets, from, to), dragIdx := None)
  }

  /** `hasOverLimit`: some post is longer than 280. */
  function HasOverLimit(ts: seq<string>): (r: bool)
    ensures r <==> exists i :: 0 <= i < |ts| && |ts[i]| > MaxPostLength
  {
    if |ts| == 0 then false
    else if |ts[0]| > MaxPostLength then true
    else
      var r := HasOverLimit(ts[1..]);
      assert forall i :: 1 <= i < |ts| ==> ts[i] == ts[1..][i - 1];
      r
  }

  // ---------------------------------------------------------------------------
  // Saving
  // ---------------------------------------------------------------------------

  /** The `createdAt` of `handleSave`: the stored draft's timestamp when
      editing a known id, unless it is 0 (falsy), and `now` otherwise. */
  function CreatedAt(threadId: Option<string>, st: Threads.Stored, now: int): int
  {
    if Truthy(threadId) then
      match Threads.GetThread(st, threadId.value)
      case Some(t) => if t.createdAt != 0 then t.createdAt else now
      case None => now
    else now
  }

  /** `handleSave`: refused when the topic is blank; otherwise the draft
      record holds the trimmed topic and the current posts, keeps the edited
      id (or takes `freshId` for a new draft), keeps the stored creation time
      when editing, and is stamped `now` as updated. */
  function HandleSave(e: Editor, threadId: Option<string>, st: Threads.Stored,
                      freshId: string, now: int): (r: Result<Threads.Thread, EditorError>)
    ensures r.Failure? <==> Blank(e.topic)
    ensures r.Failure? ==> r.error == EmptyTopic
    ensures r.Success? ==>
      && r.value.topic == Trim(e.topic)
      && r.value.topic != ""
      && r.value.tweets == e.tweets
      && r.value.updatedAt == now
      && r.value.id == (if Truthy(threadId) then threadId.value else freshId)
    ensures r.Success? && !Truthy(threadId) ==> r.value.createdAt == now
    ensures r.Success? && Truthy(threadId) ==>
      match Threads.GetThread(st, threadId.value)
      case Some(t) => r.value.createdAt == (if t.createdAt != 0 then t.createdAt else now)
      case None => r.value.createdAt == now
  {
    if Blank(e.topic) then Failure(EmptyTopic)
    else
      Success(Threads.Thread(
        id := if Truthy(threadId) then threadId.value else freshId,
        topic := Trim(e.topic),
        tweets := e.tweets,
        createdAt := CreatedAt(threadId, st, now),
        updatedAt := now))
  }

  /** The save button: disabled while a post is over the limit, otherwise
      it runs `handleSave`. */
  function PressSave(e: Editor, threadId: Option<string>, st: Threads.Stored,
                     freshId: string, now: int): (r: Result<Threads.Thread, EditorError>)
    ensures r == Failure(OverLimit) <==> exists i :: 0 <= i < |e.tweets| && |e.tweets[i]| > MaxPostLength
    ensures r.Success? ==> forall i :: 0 <= i < |r.value.tweets| ==> |r.value.tweets[i]| <= MaxPostLength
    ensures r.Success? ==> !Blank(e.topic)
  {
    if HasOverLimit(e.tweets) then Failure(OverLimit)
    else HandleSave(e, threadId, st, freshId, now)
  }

  // ---------------------------------------------------------------------------
  // Properties relating the handlers
  // ---------------------------------------------------------------------------

  /** Taking out what was just inserted gives the list back. */
  lemma DropInsert(ts: seq<string>, k: int, x: string)
    requires 0 <= k <= |ts|
    ensures DropAt(InsertAt(ts, k, x), k) == ts
  {
    var q := DropAt(InsertAt(ts, k, x), k);
    assert |q| == |ts|;
    forall j | 0 <= j < |ts| ensures q[j] == ts[j] {
    }
  }

  /** Putting back what was just taken out, where it was, gives the list
      back. */
  lemma InsertDrop(ts: seq<string>, k: int)
    requires 0 <= k < |ts|
    ensures InsertAt(DropAt(ts, k), k, ts[k]) == ts
  {
    var r := DropAt(ts, k);
    var q := InsertAt(r, k, ts[k]);
    assert |q| == |ts|;
    forall j | 0 <= j < |ts| ensures q[j] == ts[j] {
      if j < k {
        assert q[j] == r[j];
      } else if j > k {
        assert q[j] == r[j - 1];
      }
    }
  }

  /** Putting the removed post back where it was restores the list. */
  lemma RemoveTweetUndo(ts: seq<string>, index: int)
    requires |ts| > MinPosts && 0 <= index < |ts|
    ensures InsertAt(RemoveTweet(ts, index), index, ts[index]) == ts
  {
    InsertDrop(ts, index);
  }

  /** `addTweet` is insertion of an empty slot at the last position. */
  lemma AddTweetIsInsert(ts: seq<string>)
    requires |ts| > 0
    ensures AddTweet(ts) == InsertAt(ts, |ts| - 1, "")
  {
  }

  /** Removing the slot `addTweet` just created gives the list back. */
  lemma AddThenRemove(ts: seq<string>)
    requires |ts| >= MinPosts
    ensures RemoveTweet(AddTweet(ts), |ts| - 1) == ts
  {
    var r := AddTweet(ts);
    var q := RemoveTweet(r, |ts| - 1);
    assert |q| == |ts|;
    forall j | 0 <= j < |ts| ensures q[j] == ts[j] {
      if j < |ts| - 1 {
        assert q[j] == r[j] == r[..|ts| - 1][j];
      } else {
        assert q[j] == r[j + 1];
      }
    }
  }

  /** Dragging a post back to where it came from restores the list. */
  lemma MoveTweetBack(ts: seq<string>, from: int, to: int)
    requires 0 <= from < |ts| && 0 <= to < |ts|
    ensures MoveTweet(MoveTweet(ts, from, to), to, from) == ts
  {
    var d := DropAt(ts, from);
    DropInsert(d, to, ts[from]);
    InsertDrop(ts, from);
  }

  /** Two drops that exchange source and target leave the posts as they
      were. */
  lemma HandleDropBack(e: Editor, to: int)
    requires 0 <= to < |e.tweets|
    requires e.dragIdx.Some? && 0 <= e.dragIdx.value < |e.tweets|
    ensures var e1 := HandleDrop(e, to);
      HandleDrop(e1.(dragIdx := Some(to)), e.dragIdx.value).tweets == e.tweets
  {
    if e.dragIdx.value != to {
      MoveTweetBack(e.tweets, e.dragIdx.value, to);
    }
  }

  /** One user edit of the post list. */
  datatype Edit =
    | Update(index: int, value: string)
    | Remove(index: int)
    | Add
    | Drop(from: int, to: int)

  /** The list after one edit. A drop is only offered between rendered cards,
      so one naming positions outside the list changes nothing. */
  function Apply(ts: seq<string>, op: Edit): seq<string>
  {
    match op
    case Update(i, v) => UpdateTweet(ts, i, v)
    case Remove(i) => RemoveTweet(ts, i)
    case Add => AddTweet(ts)
    case Drop(from, to) =>
      if 0 <= from < |ts| && 0 <= to < |ts| then
        HandleDrop(Editor("", 0, ts, true, Some(from)), to).tweets
      else ts
  }

  /** The list after a sequence of edits, applied in order. */
  function ApplyAll(ts: seq<string>, ops: seq<Edit>): seq<string>
    decreases |ops|
  {
    if |ops| == 0 then ts else ApplyAll(Apply(ts, ops[0]), ops[1..])
  }

  /** A list that starts with at least three posts, as every scaffold does,
      keeps at least three under any sequence of edits. */
  lemma {:induction false} EditsKeepMinimum(ts: seq<string>, ops: seq<Edit>)
    requires |ts| >= MinPosts
    ensures |ApplyAll(ts, ops)| >= MinPosts
    decreases |ops|
  {
    if |ops| > 0 {
      EditsKeepMinimum(Apply(ts, ops[0]), ops[1..]);
    }
  }

  /** Opening a stored draft and saving it unchanged writes back the same
      draft with only its update time advanced, provided its topic is
      already trimmed and non-empty and its creation time is set. */
  lemma LoadThenSave(e: Editor, id: string, st: Threads.Stored, freshId: string, now: int)
    requires id != ""
    requires Threads.GetThread(st, id).Some?
    requires var t := Threads.GetThread(st, id).value;
      Trim(t.topic) == t.topic && t.topic != "" && t.createdAt != 0
    ensures var t := Threads.GetThread(st, id).value;
      HandleSave(Load(e, Some(id), st), Some(id), st, freshId, now) == Success(t.(updatedAt := now))
  {
  }
}
