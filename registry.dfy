/** The `service` decorator of setup.py and the dictionaries it fills
    (`SERVICES`, `DBS`, `CADDY`). Each dictionary maps a service name to
    its setup callbacks in registration order and starts out holding only
    the group `all`; registering a callback appends it under its name and
    under `all`. Callbacks are opaque values of type `F`. */
module Registry {

  const ALL := "all"

  type Table<F> = map<string, seq<F>>

  /** The dictionary after `service(name, d)` decorates `wrapper`. */
  function Registered<F>(d: Table<F>, name: string, wrapper: F): (r: Table<F>)
    requires ALL in d
    ensures r.Keys == d.Keys + {name}
    ensures name != ALL ==> r[name] == (if name in d then d[name] else []) + [wrapper]
                            && r[ALL] == d[ALL] + [wrapper]
    ensures name == ALL ==> r[ALL] == d[ALL] + [wrapper, wrapper]
    ensures forall k :: k in d && k != name && k != ALL ==> r[k] == d[k]
  {
    var d1 := d[name := (if name in d then d[name] else []) + [wrapper]];
    d1[ALL := d1[ALL] + [wrapper]]
  }

  /** The dictionary after the registrations in `history`, in order. */
  function Replay<F>(history: seq<(string, F)>): (r: Table<F>)
    ensures ALL in r
    decreases |history|
  {
    if history == [] then map[ALL := []]
    else
      var last := history[|history| - 1];
      Registered(Replay(history[..|history| - 1]), last.0, last.1)
  }

  /** The callbacks registered under `name`, in registration order. */
  function ListFor<F>(history: seq<(string, F)>, name: string): seq<F>
    decreases |history|
  {
    if history == [] then []
    else
      var last := history[|history| - 1];
      ListFor(history[..|history| - 1], name) + (if last.0 == name then [last.1] else [])
  }

  /** Everything appended to `all`: each callback once, and twice when it
      was itself registered under `all`. */
  function AllList<F>(history: seq<(string, F)>): seq<F>
    decreases |history|
  {
    if history == [] then []
    else
      var last := history[|history| - 1];
      AllList(history[..|history| - 1]) + (if last.0 == ALL then [last.1, last.1] else [last.1])
  }

  /** After any sequence of registrations, a name other than `all` is a key
      exactly when something was registered under it, and its list is what
      was registered under it in order; `all` lists every registration. */
  lemma {:induction false} ReplayLists<F>(history: seq<(string, F)>, name: string)
    ensures name != ALL ==>
              (name in Replay(history) <==> exists i :: 0 <= i < |history| && history[i].0 == name)
    ensures name != ALL && name in Replay(history) ==> Replay(history)[name] == ListFor(history, name)
    ensures Replay(history)[ALL] == AllList(history)
    decreases |history|
  {
    if history != [] {
      var init := history[..|history| - 1];
      ReplayLists(init, name);
      assert forall i :: 0 <= i < |init| ==> init[i] == history[i];
      if name != ALL && name !in Replay(init) {
        assert ListFor(init, name) == [] by { ListForAbsent(init, name); }
      }
    }
  }

  lemma {:induction false} ListForAbsent<F>(history: seq<(string, F)>, name: string)
    requires forall i :: 0 <= i < |history| ==> history[i].0 != name
    ensures ListFor(history, name) == []
    decreases |history|
  {
    if history != [] {
      ListForAbsent(history[..|history| - 1], name);
    }
  }

  /** Every callback registered under a name is also in `all`, at least as
      often, so running the group `all` runs every registered setup. */
  lemma {:induction false} AllCoversEach<F>(history: seq<(string, F)>, name: string)
    ensures multiset(ListFor(history, name)) <= multiset(AllList(history))
    decreases |history|
  {
    if history != [] {
      AllCoversEach(history[..|history| - 1], name);
    }
  }

  /** The same, stated on the dictionary itself. */
  lemma AllRunsEverything<F>(history: seq<(string, F)>)
    ensures forall k :: k in Replay(history) ==> multiset(Replay(history)[k]) <= multiset(Replay(history)[ALL])
  {
    forall k | k in Replay(history)
      ensures multiset(Replay(history)[k]) <= multiset(Replay(history)[ALL])
    {
      ReplayLists(history, k);
      AllCoversEach(history, k);
    }
  }

  /** One of the module-level service dictionaries. `history` records the
      registrations made so far. */
  class ServiceTable<F> {
    var lists: Table<F>
    ghost var history: seq<(string, F)>

    ghost predicate Valid()
      reads this
    {
      lists == Replay(history)
    }

    /** A dictionary holding only the empty group `all`. */
    constructor ()
      ensures Valid() && history == []
      ensures lists == map[ALL := []]
    {
      lists := map[ALL := []];
      history := [];
    }

    /** `service(name, d)` applied to a function: the wrapper is appended to
        the list for `name` (created empty if missing) and then to `all`. */
    method Register(name: string, wrapper: F)
      requires Valid()
      modifies this
      ensures Valid() && history == old(history) + [(name, wrapper)]
      ensures lists == Registered(old(lists), name, wrapper)
    {
      ghost var before := lists;
      if name !in lists {
        lists := lists[name := []];
      }
      lists := lists[name := lists[name] + [wrapper]];
      assert lists == before[name := (if name in before then before[name] else []) + [wrapper]];
      lists := lists[ALL := lists[ALL] + [wrapper]];
      assert lists == Registered(before, name, wrapper);
      history := history + [(name, wrapper)];
      assert history[..|history| - 1] == old(history);
    }
  }
}
