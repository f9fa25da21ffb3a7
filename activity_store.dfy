/**
 * The client-side activity store (`ActivityStore`): a registry of activities keyed by id,
 * the activity currently open, and three in-flight flags. Each asynchronous action is two
 * steps: it raises its flag, then, once the remote call settles, one atomic block writes
 * the outcome and lowers the flag. The remote call is not modelled; its settled outcome
 * is a parameter of the second step.
 */
module ActivityStores {
  import opened Wrappers
  import opened Activities
  import opened OrderedMaps
  import opened Grouping

  /** `activityRegistry`: a `Map` from id to activity. */
  type Registry = OrderedMap<string, Activity>

  /** Every activity is stored under its own id. */
  ghost predicate KeyedById(reg: Registry) {
    forall k :: k in reg.entries ==> reg.entries[k].id == k
  }

  /**
   * The registry after the `forEach` of `loadActivities`: each fetched activity, its date
   * cut at the first '.', is set under its id, in response order.
   */
  function MergeFetched(reg: Registry, fetched: seq<Activity>): (r: Registry)
    requires reg.Valid()
    ensures r.Valid()
    ensures KeyedById(reg) ==> KeyedById(r)
  {
    if fetched == [] then reg
    else
      var a := fetched[|fetched| - 1];
      MergeFetched(reg, fetched[..|fetched| - 1]).Set(a.id, Normalize(a))
  }

  /** The last activity of `s` that has the given id, if any. */
  function LastWithId(s: seq<Activity>, id: string): (r: Option<Activity>)
    ensures r.None? <==> forall i :: 0 <= i < |s| ==> s[i].id != id
    ensures r.Some? ==> exists i :: 0 <= i < |s| && s[i] == r.value && s[i].id == id &&
                                    forall j :: i < j < |s| ==> s[j].id != id
  {
    if s == [] then None
    else if s[|s| - 1].id == id then Some(s[|s| - 1])
    else LastWithId(s[..|s| - 1], id)
  }

  /**
   * After a load, an id of the response holds its last occurrence in the response, date
   * normalised (a later duplicate overwrites an earlier one); any other id keeps what it had.
   */
  lemma {:induction false} MergeFetchedAt(reg: Registry, fetched: seq<Activity>, id: string)
    requires reg.Valid()
    ensures MergeFetched(reg, fetched).Get(id) ==
      match LastWithId(fetched, id)
      case Some(a) => Some(Normalize(a))
      case None => reg.Get(id)
  {
    if fetched != [] {
      MergeFetchedAt(reg, fetched[..|fetched| - 1], id);
    }
  }

  /** A load only appends keys: the keys already present keep their positions. */
  lemma {:induction false} MergeFetchedKeepsOrder(reg: Registry, fetched: seq<Activity>)
    requires reg.Valid()
    ensures reg.keys <= MergeFetched(reg, fetched).keys
  {
    if fetched != [] {
      MergeFetchedKeepsOrder(reg, fetched[..|fetched| - 1]);
    }
  }

  /** Each activity in the groups of the registry's values is the entry stored under its id. */
  lemma {:induction false} GroupedAreStored(reg: Registry, r: seq<DayGroup>)
    requires reg.Valid() && KeyedById(reg)
    requires multiset(Flatten(r)) == multiset(reg.Values())
    ensures forall i, a :: 0 <= i < |r| && a in r[i].1 ==> reg.Get(a.id) == Some(a)
  {
    forall i, a | 0 <= i < |r| && a in r[i].1 ensures reg.Get(a.id) == Some(a) {
      FlattenSplit(r, i);
      ValueIsStored(reg, a);
    }
  }

  /** A value of the registry is the entry stored under its own id. */
  lemma {:induction false} ValueIsStored(reg: Registry, a: Activity)
    requires reg.Valid() && KeyedById(reg) && a in multiset(reg.Values())
    ensures reg.Get(a.id) == Some(a)
  {
    var values := reg.Values();
    assert a in values;
    var q :| 0 <= q < |values| && values[q] == a;
  }

  class ActivityStore {
    /** `activityRegistry`. */
    var registry: Registry
    /** `activity`: the activity currently open, `null` when none. */
    var activity: Option<Activity>
    /** A bulk or single fetch is in flight. */
    var loadingInitial: bool
    /** A create, edit or delete is in flight. */
    var submitting: bool
    /** The name of the control that triggered the delete in flight, `''` otherwise. */
    var target: string

    ghost predicate Valid()
      reads this
    {
      registry.Valid() && KeyedById(registry)
    }

    constructor ()
      ensures Valid()
      ensures registry == OrderedMap.Empty()
      ensures activity == None && !loadingInitial && !submitting && target == ""
    {
      registry := OrderedMap.Empty();
      activity := None;
      loadingInitial := false;
      submitting := false;
      target := "";
    }

    /**
     * `activitiesByDate`: the registry's values grouped by day. Every stored activity is in
     * the groups exactly once and nothing else is; the registry is only read.
     */
    function ActivitiesByDate(timeOf: string -> int): (r: seq<DayGroup>)
      reads this
      requires Valid()
      ensures multiset(Flatten(r)) == multiset(registry.Values())
      ensures forall i, j :: 0 <= i < j < |r| ==> r[i].0 != r[j].0
      ensures forall i, a :: 0 <= i < |r| && a in r[i].1 ==>
        DatePart(a.date) == r[i].0 && registry.Get(a.id) == Some(a)
    {
      var r := GroupActivitiesByDate(registry.Values(), timeOf);
      GroupedAreStored(registry, r);
      r
    }

    /** `getActivity(id)`: the registry entry under `id`, which carries that id. */
    function GetActivity(id: string): (r: Option<Activity>)
      reads this
      requires Valid()
      ensures r.Some? <==> id in registry.entries
      ensures r.Some? ==> r.value == registry.entries[id] && r.value.id == id
    {
      registry.Get(id)
    }

    // --------------------------------------------------------------
    // loadActivities
    // --------------------------------------------------------------

    method BeginLoadActivities()
      requires Valid()
      modifies this
      ensures Valid()
      ensures loadingInitial
      ensures registry == old(registry) && activity == old(activity)
      ensures submitting == old(submitting) && target == old(target)
    {
      loadingInitial := true;
    }

    /** The settled list call: on success every fetched activity is stored, merged into the registry. */
    method SettleLoadActivities(response: Settled<seq<Activity>>)
      requires Valid()
      modifies this
      ensures Valid()
      ensures !loadingInitial
      ensures response.Fulfilled? ==> registry == MergeFetched(old(registry), response.value)
      ensures response.Rejected? ==> registry == old(registry)
      ensures activity == old(activity) && submitting == old(submitting) && target == old(target)
    {
      if response.Fulfilled? {
        var fetched := response.value;
        var i := 0;
        while i < |fetched|
          invariant 0 <= i <= |fetched|
          invariant registry == MergeFetched(old(registry), fetched[..i])
          invariant activity == old(activity) && submitting == old(submitting) && target == old(target)
        {
          var a := fetched[i];
          assert fetched[..i + 1][..i] == fetched[..i];
          registry := registry.Set(a.id, Normalize(a));
          i := i + 1;
        }
        assert fetched[..i] == fetched;
      }
      loadingInitial := false;
    }

    /** `loadActivities()` with the list call settling as `response`. */
    method LoadActivities(response: Settled<seq<Activity>>)
      requires Valid()
      modifies this
      ensures Valid()
      ensures !loadingInitial
      ensures response.Fulfilled? ==> registry == MergeFetched(old(registry), response.value)
      ensures response.Rejected? ==> registry == old(registry)
      ensures activity == old(activity) && submitting == old(submitting) && target == old(target)
    {
      BeginLoadActivities();
      SettleLoadActivities(response);
    }

    // --------------------------------------------------------------
    // loadActivity, clearActivity
    // --------------------------------------------------------------

    /** A cache hit opens the stored activity at once; a miss raises `loadingInitial` and needs the fetch. */
    method BeginLoadActivity(id: string) returns (cached: bool)
      requires Valid()
      modifies this
      ensures Valid()
      ensures cached <==> id in old(registry.entries)
      ensures cached ==> activity == Some(old(registry.entries)[id]) && loadingInitial == old(loadingInitial)
      ensures !cached ==> activity == old(activity) && loadingInitial
      ensures registry == old(registry) && submitting == old(submitting) && target == old(target)
    {
      var found := GetActivity(id);
      cached := found.Some?;
      if cached {
        activity := found;
      } else {
        loadingInitial := true;
      }
    }

    /** The settled details call: on success the fetched activity is opened as it came; the registry is not touched. */
    method SettleLoadActivity(response: Settled<Activity>)
      requires Valid()
      modifies this
      ensures Valid()
      ensures !loadingInitial
      ensures response.Fulfilled? ==> activity == Some(response.value)
      ensures response.Rejected? ==> activity == old(activity)
      ensures registry == old(registry) && submitting == old(submitting) && target == old(target)
    {
      if response.Fulfilled? {
        activity := Some(response.value);
      }
      loadingInitial := false;
    }

    /** `loadActivity(id)`, the details call (made only on a miss) settling as `response`. */
    method LoadActivity(id: string, response: Settled<Activity>) returns (fetched: bool)
      requires Valid()
      modifies this
      ensures Valid()
      ensures fetched <==> id !in old(registry.entries)
      ensures !fetched ==> activity == Some(old(registry.entries)[id]) && loadingInitial == old(loadingInitial)
      ensures fetched ==> !loadingInitial
      ensures fetched && response.Fulfilled? ==> activity == Some(response.value)
      ensures fetched && response.Rejected? ==> activity == old(activity)
      ensures registry == old(registry) && submitting == old(submitting) && target == old(target)
    {
      var cached := BeginLoadActivity(id);
      fetched := !cached;
      if fetched {
        SettleLoadActivity(response);
      }
    }

    /** `clearActivity()`: nothing is open any more. */
    method ClearActivity()
      requires Valid()
      modifies this
      ensures Valid()
      ensures activity == None
      ensures registry == old(registry) && loadingInitial == old(loadingInitial)
      ensures submitting == old(submitting) && target == old(target)
    {
      activity := None;
    }

    // --------------------------------------------------------------
    // createActivity, editActivity
    // --------------------------------------------------------------

    /** The first step of `createActivity` and `editActivity`. */
    method BeginSubmit()
      requires Valid()
      modifies this
      ensures Valid()
      ensures submitting
      ensures registry == old(registry) && activity == old(activity)
      ensures loadingInitial == old(loadingInitial) && target == old(target)
    {
      submitting := true;
    }

    /** The settled create call: on success `a` is set under its id, whether or not the id was present. */
    method SettleCreate(a: Activity, response: Settled<()>)
      requires Valid()
      modifies this
      ensures Valid()
      ensures !submitting
      ensures response.Fulfilled? ==> registry == old(registry).Set(a.id, a)
      ensures response.Rejected? ==> registry == old(registry)
      ensures activity == old(activity) && loadingInitial == old(loadingInitial) && target == old(target)
    {
      if response.Fulfilled? {
        registry := registry.Set(a.id, a);
      }
      submitting := false;
    }

    /** `createActivity(a)` with the create call settling as `response`. */
    method CreateActivity(a: Activity, response: Settled<()>)
      requires Valid()
      modifies this
      ensures Valid()
      ensures !submitting
      ensures response.Fulfilled? ==> registry == old(registry).Set(a.id, a)
      ensures response.Rejected? ==> registry == old(registry)
      ensures activity == old(activity) && loadingInitial == old(loadingInitial) && target == old(target)
    {
      BeginSubmit();
      SettleCreate(a, response);
    }

    /** The settled update call: on success `a` replaces the entry under its id and is opened. */
    method SettleEdit(a: Activity, response: Settled<()>)
      requires Valid()
      modifies this
      ensures Valid()
      ensures !submitting
      ensures response.Fulfilled? ==> registry == old(registry).Set(a.id, a) && activity == Some(a)
      ensures response.Rejected? ==> registry == old(registry) && activity == old(activity)
      ensures loadingInitial == old(loadingInitial) && target == old(target)
    {
      if response.Fulfilled? {
        registry := registry.Set(a.id, a);
        activity := Some(a);
      }
      submitting := false;
    }

    /** `editActivity(a)` with the update call settling as `response`. */
    method EditActivity(a: Activity, response: Settled<()>)
      requires Valid()
      modifies this
      ensures Valid()
      ensures !submitting
      ensures response.Fulfilled? ==> registry == old(registry).Set(a.id, a) && activity == Some(a)
      ensures response.Rejected? ==> registry == old(registry) && activity == old(activity)
      ensures loadingInitial == old(loadingInitial) && target == old(target)
    {
      BeginSubmit();
      SettleEdit(a, response);
    }

    // --------------------------------------------------------------
    // deleteActivity
    // --------------------------------------------------------------

    /** The first step of `deleteActivity`: the triggering button's name becomes the target. */
    method BeginDelete(targetName: string)
      requires Valid()
      modifies this
      ensures Valid()
      ensures submitting && target == targetName
      ensures registry == old(registry) && activity == old(activity) && loadingInitial == old(loadingInitial)
    {
      submitting := true;
      target := targetName;
    }

    /** The settled delete call: on success exactly the entry under `id` is removed. */
    method SettleDelete(id: string, response: Settled<()>)
      requires Valid()
      modifies this
      ensures Valid()
      ensures !submitting && target == ""
      ensures response.Fulfilled? ==> registry == old(registry).Delete(id)
      ensures response.Rejected? ==> registry == old(registry)
      ensures activity == old(activity) && loadingInitial == old(loadingInitial)
    {
      if response.Fulfilled? {
        registry := registry.Delete(id);
      }
      submitting := false;
      target := "";
    }

    /** `deleteActivity(event, id)`, `targetName` being `event.currentTarget.name`. */
    method DeleteActivity(targetName: string, id: string, response: Settled<()>)
      requires Valid()
      modifies this
      ensures Valid()
      ensures !submitting && target == ""
      ensures response.Fulfilled? ==> registry == old(registry).Delete(id)
      ensures response.Rejected? ==> registry == old(registry)
      ensures activity == old(activity) && loadingInitial == old(loadingInitial)
    {
      BeginDelete(targetName);
      SettleDelete(id, response);
    }
  }

  /** Creating an activity under a new id and then deleting it leaves the registry as it was. */
  method CreateThenDelete(store: ActivityStore, a: Activity, targetName: string)
    requires store.Valid() && a.id !in store.registry.entries
    modifies store
    ensures store.Valid()
    ensures store.registry == old(store.registry)
    ensures !store.submitting && store.target == ""
  {
    store.CreateActivity(a, Fulfilled(()));
    store.DeleteActivity(targetName, a.id, Fulfilled(()));
    SetThenDeleteRestores(old(store.registry), a.id, a);
  }
}
