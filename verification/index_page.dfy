/**
  The screen selection of `src/pages/Index.tsx`: a four-state machine whose
  transitions are the callbacks each screen is wired with.
*/
module IndexPage {
  import opened Base

  /** The `View` union: the draft list, the editor for a new draft, the
      editor for a stored draft, and the read-only view of a stored draft. */
  datatype View = List | New | Edit(id: string) | Viewing(id: string)

  /** The callbacks a screen can fire. */
  datatype Event =
    | Back                     // onBack
    | Saved(id: string)        // onSaved(id)
    | NewDraft                 // onNew
    | Open(id: string)         // onOpen(id)
    | EditRequested(id: string) // onEdit(id)

  /** The page mounts on the list. */
  const Initial: View := List

  /** Whether the screen shown for `v` is wired with the callback behind
      `ev`: the list offers new, open and edit; both editors offer back and
      saved; the read-only view offers back and edit. */
  predicate Wired(v: View, ev: Event)
  {
    match v
    case List => ev.NewDraft? || ev.Open? || ev.EditRequested?
    case New => ev.Back? || ev.Saved?
    case Edit(_) => ev.Back? || ev.Saved?
    case Viewing(_) => ev.Back? || ev.EditRequested?
  }

  /** The `setView` call a callback makes, or `None` when the current screen
      does not offer that callback. */
  function Step(v: View, ev: Event): (r: Option<View>)
    ensures r.Some? <==> Wired(v, ev)
    ensures r == Some(New) <==> v == List && ev == NewDraft
    ensures r.Some? && r.value.Edit? ==> ev == EditRequested(r.value.id)
    ensures r.Some? && ev.Back? ==> r.value == (if v.Edit? then Viewing(v.id) else List)
    ensures r.Some? && ev.Saved? ==> r.value == Viewing(ev.id)
    ensures r.Some? && ev.Open? ==> r.value == Viewing(ev.id)
    ensures r.Some? && ev.EditRequested? ==> r.value == Edit(ev.id)
    ensures r.Some? && r.value.Viewing? ==>
      ev == Open(r.value.id) || ev == Saved(r.value.id) || v == Edit(r.value.id)
  {
    match (v, ev)
    case (List, NewDraft) => Some(New)
    case (List, Open(id)) => Some(Viewing(id))
    case (List, EditRequested(id)) => Some(Edit(id))
    case (New, Back) => Some(List)
    case (New, Saved(id)) => Some(Viewing(id))
    case (Edit(id), Back) => Some(Viewing(id))
    case (Edit(_), Saved(id)) => Some(Viewing(id))
    case (Viewing(_), Back) => Some(List)
    case (Viewing(_), EditRequested(id)) => Some(Edit(id))
    case _ => None
  }

  /** The screens visited while the events fire in order, starting with `v`;
      `None` if some event is not offered by the screen it reaches. */
  function Trace(v: View, evs: seq<Event>): Option<seq<View>>
    decreases |evs|
  {
    if |evs| == 0 then Some([v])
    else match Step(v, evs[0])
      case None => None
      case Some(w) =>
        match Trace(w, evs[1..])
        case None => None
        case Some(tail) => Some([v] + tail)
  }

  /** Every visit to the new-draft editor comes straight from the list: no
      run of callbacks reaches it from the editor or the read-only view. */
  lemma {:induction false} NewOnlyFromList(v: View, evs: seq<Event>)
    requires Trace(v, evs).Some?
    ensures var tr := Trace(v, evs).value;
      |tr| == |evs| + 1 &&
      tr[0] == v &&
      forall k :: 0 < k < |tr| && tr[k] == New ==> tr[k - 1] == List
    decreases |evs|
  {
    if |evs| > 0 {
      var w := Step(v, evs[0]).value;
      NewOnlyFromList(w, evs[1..]);
      var tail := Trace(w, evs[1..]).value;
      var tr := [v] + tail;
      forall k | 0 < k < |tr| && tr[k] == New ensures tr[k - 1] == List {
        if k == 1 {
          assert Step(v, evs[0]) == Some(New);
        } else {
          assert tr[k] == tail[k - 1] && tr[k - 1] == tail[k - 2];
        }
      }
    }
  }

  /** From every screen, pressing back at most twice returns to the list. */
  lemma BackReachesList(v: View)
    ensures v.New? || v.Viewing? ==> Step(v, Back) == Some(List)
    ensures v.Edit? ==> Trace(v, [Back, Back]) == Some([v, Viewing(v.id), List])
  {
    if v.Edit? {
      var w := Viewing(v.id);
      assert [Back][1..] == [];
      assert Trace(List, []) == Some([List]);
      assert Trace(w, [Back]) == Some([w] + [List]);
      assert [w] + [List] == [w, List];
      assert Step(v, Back) == Some(w);
      assert [Back, Back][0] == Back && [Back, Back][1..] == [Back];
      assert Trace(v, [Back, Back]) == Some([v] + [w, List]);
      assert [v] + [w, List] == [v, w, List];
    }
  }
}
