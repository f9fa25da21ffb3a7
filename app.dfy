/**
 * The list state of the `App` component: the activities shown, the activity selected
 * (`null` when none) and whether the form is in edit mode. Each handler computes the next
 * state from the current one; the initial load builds the list from the fetched response.
 */
module App {
  import opened Wrappers
  import opened Activities

  datatype AppState = AppState(activities: seq<Activity>, selected: Option<Activity>, editMode: bool)

  // ------------------------------------------------------------------
  // The two filters the handlers use.
  // ------------------------------------------------------------------

  /** `s.filter(a => a.id === id)`. */
  function WithId(s: seq<Activity>, id: string): (r: seq<Activity>)
    ensures |r| <= |s|
    ensures forall i :: 0 <= i < |r| ==> r[i].id == id
  {
    if s == [] then []
    else WithId(s[..|s| - 1], id) + (if s[|s| - 1].id == id then [s[|s| - 1]] else [])
  }

  /** `s.filter(a => a.id !== id)`. */
  function WithoutId(s: seq<Activity>, id: string): (r: seq<Activity>)
    ensures |r| <= |s|
    ensures forall i :: 0 <= i < |r| ==> r[i].id != id
  {
    if s == [] then []
    else WithoutId(s[..|s| - 1], id) + (if s[|s| - 1].id != id then [s[|s| - 1]] else [])
  }

  /** `r` is `s` with some elements dropped and the rest in their original order. */
  predicate IsSubsequence(r: seq<Activity>, s: seq<Activity>) {
    if r == [] then true
    else if s == [] then false
    else if r[|r| - 1] == s[|s| - 1] then IsSubsequence(r[..|r| - 1], s[..|s| - 1])
    else IsSubsequence(r, s[..|s| - 1])
  }

  /** The match filter is empty exactly when no element carries the id. */
  lemma {:induction false} WithIdEmpty(s: seq<Activity>, id: string)
    ensures WithId(s, id) == [] <==> forall i :: 0 <= i < |s| ==> s[i].id != id
  {
    if s != [] {
      WithIdEmpty(s[..|s| - 1], id);
      if WithId(s[..|s| - 1], id) != [] {
        assert |WithId(s, id)| > 0;
      }
    }
  }

  /** The head of the match filter is the first element carrying the id. */
  lemma {:induction false} WithIdHead(s: seq<Activity>, id: string)
    requires WithId(s, id) != []
    ensures exists i :: 0 <= i < |s| && s[i] == WithId(s, id)[0] && s[i].id == id &&
                        forall j :: 0 <= j < i ==> s[j].id != id
  {
    var u, x := s[..|s| - 1], s[|s| - 1];
    if WithId(u, id) != [] {
      WithIdHead(u, id);
      var i :| 0 <= i < |u| && u[i] == WithId(u, id)[0] && u[i].id == id &&
               forall j :: 0 <= j < i ==> u[j].id != id;
      assert s[i] == u[i];
      assert forall j :: 0 <= j < i ==> s[j] == u[j];
    } else {
      WithIdEmpty(u, id);
      assert WithId(s, id) == [x];
      assert forall j :: 0 <= j < |u| ==> s[j] == u[j];
    }
  }

  /** Filtering out an id keeps every element with another id, as often as it occurs. */
  lemma {:induction false} WithoutIdCounts(s: seq<Activity>, id: string, b: Activity)
    ensures multiset(WithoutId(s, id))[b] == if b.id == id then 0 else multiset(s)[b]
  {
    if s != [] {
      var u, x := s[..|s| - 1], s[|s| - 1];
      WithoutIdCounts(u, id, b);
      assert s == u + [x];
    }
  }

  /** Filtering out an id keeps the remaining elements in their original order. */
  lemma {:induction false} WithoutIdIsSubsequence(s: seq<Activity>, id: string)
    ensures IsSubsequence(WithoutId(s, id), s)
  {
    if s != [] {
      var u, x := s[..|s| - 1], s[|s| - 1];
      WithoutIdIsSubsequence(u, id);
      var r := WithoutId(s, id);
      if x.id != id {
        assert r[..|r| - 1] == WithoutId(u, id);
      } else {
        assert r == WithoutId(u, id);
        if r != [] {
          assert r[|r| - 1].id != x.id;
        }
      }
    }
  }

  /** Filtering out an id distributes over concatenation. */
  lemma {:induction false} WithoutIdAppend(s: seq<Activity>, t: seq<Activity>, id: string)
    ensures WithoutId(s + t, id) == WithoutId(s, id) + WithoutId(t, id)
  {
    if t == [] {
      assert s + t == s;
    } else {
      var c := s + t;
      assert c[..|c| - 1] == s + t[..|t| - 1];
      WithoutIdAppend(s, t[..|t| - 1], id);
    }
  }

  /** A list with no element carrying the id is left as it is. */
  lemma {:induction false} WithoutIdNoMatch(s: seq<Activity>, id: string)
    requires forall i :: 0 <= i < |s| ==> s[i].id != id
    ensures WithoutId(s, id) == s
  {
    if s != [] {
      WithoutIdNoMatch(s[..|s| - 1], id);
    }
  }

  // ------------------------------------------------------------------
  // The handlers.
  // ------------------------------------------------------------------

  /** `handleSelectActivity(id)`: the first element of the match filter (`undefined`, here `None`, when it is empty). */
  function SelectActivity(st: AppState, id: string): (r: AppState)
    ensures r.activities == st.activities && !r.editMode
    ensures r.selected.Some? ==> r.selected.value.id == id && r.selected.value in st.activities
  {
    var matches := WithId(st.activities, id);
    if matches == [] then st.(selected := None, editMode := false)
    else
      WithIdHead(st.activities, id);
      st.(selected := Some(matches[0]), editMode := false)
  }

  /** `handleOpenCreateForm()`. */
  function OpenCreateForm(st: AppState): (r: AppState)
    ensures r.activities == st.activities
    ensures r.selected.None? && r.editMode
  {
    st.(selected := None, editMode := true)
  }

  /** `handleCreateActivity(a)`: appended whatever its id, then selected. */
  function CreateActivity(st: AppState, a: Activity): (r: AppState)
    ensures |r.activities| == |st.activities| + 1 && r.activities[|st.activities|] == a
    ensures r.activities[..|st.activities|] == st.activities
    ensures r.selected == Some(a) && !r.editMode
  {
    AppState(st.activities + [a], Some(a), false)
  }

  /** `handleEditActivity(a)`: the old entries under `a.id` are dropped and `a` goes last, then is selected. */
  function EditActivity(st: AppState, a: Activity): (r: AppState)
    ensures r.activities != [] && r.activities[|r.activities| - 1] == a
    ensures forall i :: 0 <= i < |r.activities| - 1 ==> r.activities[i].id != a.id
    ensures r.activities[..|r.activities| - 1] == WithoutId(st.activities, a.id)
    ensures r.selected == Some(a) && !r.editMode
  {
    var rest := WithoutId(st.activities, a.id);
    var list := rest + [a];
    assert list[..|list| - 1] == rest;
    AppState(list, Some(a), false)
  }

  /** `handleDeleteActivity(id)`: only the list changes. */
  function DeleteActivity(st: AppState, id: string): (r: AppState)
    ensures forall i :: 0 <= i < |r.activities| ==> r.activities[i].id != id
    ensures r.selected == st.selected && r.editMode == st.editMode
  {
    st.(activities := WithoutId(st.activities, id))
  }

  // ------------------------------------------------------------------
  // Laws of the handlers.
  // ------------------------------------------------------------------

  /** Selection picks the first element carrying the id, and nothing when none does. */
  lemma SelectFirstMatch(st: AppState, id: string)
    ensures SelectActivity(st, id).selected.None? <==>
      forall i :: 0 <= i < |st.activities| ==> st.activities[i].id != id
    ensures SelectActivity(st, id).selected.Some? ==>
      exists i :: 0 <= i < |st.activities| && st.activities[i] == SelectActivity(st, id).selected.value &&
        forall j :: 0 <= j < i ==> st.activities[j].id != id
  {
    WithIdEmpty(st.activities, id);
    if WithId(st.activities, id) != [] {
      WithIdHead(st.activities, id);
    }
  }

  /** Editing keeps every element with another id, as often as before and in the same order. */
  lemma EditKeepsOthers(st: AppState, a: Activity)
    ensures var r := EditActivity(st, a).activities;
      && IsSubsequence(r[..|r| - 1], st.activities)
      && forall b: Activity :: b.id != a.id ==> multiset(r)[b] == multiset(st.activities)[b]
  {
    var r := EditActivity(st, a).activities;
    WithoutIdIsSubsequence(st.activities, a.id);
    forall b: Activity | b.id != a.id ensures multiset(r)[b] == multiset(st.activities)[b] {
      WithoutIdCounts(st.activities, a.id, b);
      assert r == WithoutId(st.activities, a.id) + [a];
    }
  }

  /** Deleting keeps every element with another id, as often as before and in the same order. */
  lemma DeleteKeepsOthers(st: AppState, id: string)
    ensures IsSubsequence(DeleteActivity(st, id).activities, st.activities)
    ensures forall b: Activity ::
      (multiset(DeleteActivity(st, id).activities)[b] == if b.id == id then 0 else multiset(st.activities)[b])
  {
    WithoutIdIsSubsequence(st.activities, id);
    forall b: Activity ensures multiset(DeleteActivity(st, id).activities)[b] ==
      (if b.id == id then 0 else multiset(st.activities)[b])
    {
      WithoutIdCounts(st.activities, id, b);
    }
  }

  /** Deleting the same id twice is deleting it once. */
  lemma DeleteIdempotent(st: AppState, id: string)
    ensures DeleteActivity(DeleteActivity(st, id), id) == DeleteActivity(st, id)
  {
    WithoutIdNoMatch(WithoutId(st.activities, id), id);
  }

  /** Deleting an id nobody carries changes nothing. */
  lemma DeleteAbsent(st: AppState, id: string)
    requires forall i :: 0 <= i < |st.activities| ==> st.activities[i].id != id
    ensures DeleteActivity(st, id) == st
  {
    WithoutIdNoMatch(st.activities, id);
  }

  /** Editing right after creating `a` leaves `a` once, last, with the earlier entries of its id gone. */
  lemma CreateThenEdit(st: AppState, a: Activity)
    ensures EditActivity(CreateActivity(st, a), a).activities == WithoutId(st.activities, a.id) + [a]
  {
    WithoutIdAppend(st.activities, [a], a.id);
    assert [a][..0] == [];
  }

  // ------------------------------------------------------------------
  // The initial load (`useEffect`).
  // ------------------------------------------------------------------

  /**
   * The list call settling as `response`: on success the list becomes the response in its
   * order, each date cut at its first '.'; a rejection, which is not caught, changes nothing.
   */
  method InitialLoad(st: AppState, response: Settled<seq<Activity>>) returns (r: AppState)
    ensures response.Rejected? ==> r == st
    ensures response.Fulfilled? ==>
      && |r.activities| == |response.value|
      && (forall i :: 0 <= i < |r.activities| ==> r.activities[i] == Normalize(response.value[i]))
      && r.selected == st.selected && r.editMode == st.editMode
  {
    if response.Rejected? {
      return st;
    }
    var data := response.value;
    var activities: seq<Activity> := [];
    var i := 0;
    while i < |data|
      invariant 0 <= i <= |data|
      invariant |activities| == i
      invariant forall k :: 0 <= k < i ==> activities[k] == Normalize(data[k])
    {
      activities := activities + [Normalize(data[i])];
      i := i + 1;
    }
    r := st.(activities := activities);
  }
}
