/** One resident model, many adapters: which weights a request runs under.

    A POST handler first notes its client and then runs one locked section. Both are single steps here, so a
    run is any sequence of steps in which a client's sections come after that client was noted.
*/
module AdapterServer {
  import opened Wrappers
  import Lists

  type Name = string
  type Client = string

  const CURRENT: Name := "current"

  datatype Weights = Base | Adapter(name: Name)

  /** The model's switch: what is loaded, which adapter is active, and whether its layers are on. */
  datatype Model = Model(loaded: set<Name>, active: Option<Name>, enabled: bool)

  /** The process-wide state. */
  datatype State = State(adapters: seq<Name>, mounted: Option<Name>, isPeft: bool, clients: set<Client>, model: Model)

  datatype Reply = Ran(weights: Weights) | Refused

  datatype Step =
    | Note(client: Client)
    | Mount(client: Client, name: Name, found: bool)
    | Unmount(client: Client)
    | Generate(client: Client, model: Name)

  // ---------------------------------------------------------------- the locked sections

  function SetAdapter(model: Model, name: Name): Model
    requires name in model.loaded
  {
    model.(active := Some(name), enabled := true)
  }

  function Disable(model: Model): Model {
    model.(enabled := false)
  }

  /** Loading into a bare model wraps it and activates the adapter; a later load changes neither. */
  function LoadAdapter(model: Model, name: Name, isPeft: bool): Model {
    if isPeft then model.(loaded := model.loaded + {name})
    else Model({name}, Some(name), true)
  }

  /** The weights a forward pass uses. */
  function Effective(s: State): Weights {
    if s.isPeft && s.model.enabled && s.model.active.Some? then Adapter(s.model.active.value) else Base
  }

  /** What every reachable state satisfies. */
  ghost predicate Inv(s: State) {
    && (s.isPeft <==> s.adapters != [])
    && (s.mounted.Some? ==> s.mounted.value in s.adapters)
    && (forall name :: name in s.model.loaded <==> name in s.adapters)
    && (s.isPeft ==> s.model.active.Some? && s.model.active.value in s.adapters)
  }

  /** The requested adapters whose files exist, in the requested order. */
  function Existing(requested: seq<Name>, exists_: Name -> bool): seq<Name> {
    if requested == [] then []
    else
      var n := |requested| - 1;
      Existing(requested[..n], exists_) + if exists_(requested[n]) then [requested[n]] else []
  }

  /** The state after `load`: `names` are the adapters whose files exist, in order. */
  function Loaded(names: seq<Name>): State {
    State(names, None, names != [], {},
          if names == [] then Model({}, None, false) else Model((set n | n in names), Some(names[0]), true))
  }

  /** The empty name is falsy, so a mount under it reads as no mount. */
  predicate IsMounted(s: State) {
    s.mounted.Some? && s.mounted.value != ""
  }

  function Generated(s: State, name: Name): (r: (State, Reply))
    requires Inv(s)
  {
    if !s.isPeft then (s, Ran(Effective(s)))
    else if name == CURRENT && |s.clients| > 1 then (s, Refused)
    else
      var model :=
        if name == CURRENT then
          if IsMounted(s) then SetAdapter(s.model, s.mounted.value) else Disable(s.model)
        else if name in s.adapters then SetAdapter(s.model, name)
        else Disable(s.model);
      var after := s.(model := model);
      (after, Ran(Effective(after)))
  }

  /** `found` is whether a capability of that name, for these base weights, is installed or built. */
  function Mounted(s: State, name: Name, found: bool): State
    requires Inv(s)
  {
    if !found then s
    else
      var model := if name in s.adapters then s.model else LoadAdapter(s.model, name, s.isPeft);
      State(if name in s.adapters then s.adapters else s.adapters + [name], Some(name), true, s.clients,
            SetAdapter(model, name))
  }

  function Unmounted(s: State): State {
    s.(mounted := None, model := if s.isPeft then Disable(s.model) else s.model)
  }

  function Stepped(s: State, step: Step): (r: State)
    requires Inv(s)
    ensures Inv(r)
  {
    match step
    case Note(client) => s.(clients := s.clients + {client})
    case Mount(_, name, found) => MountKeepsInv(s, name, found); Mounted(s, name, found)
    case Unmount(_) => Unmounted(s)
    case Generate(_, name) => Generated(s, name).0
  }

  lemma MountKeepsInv(s: State, name: Name, found: bool)
    requires Inv(s)
    ensures Inv(Mounted(s, name, found))
  {
  }

  lemma LoadedIsValid(names: seq<Name>)
    ensures Inv(Loaded(names))
  {
    if names != [] { assert names[0] in names; }
  }

  // ---------------------------------------------------------------- runs

  /** Sections run only for clients noted before: a handler notes its client first. */
  predicate IsRun(steps: seq<Step>) {
    steps == [] || (
      && IsRun(steps[..|steps| - 1])
      && (steps[|steps| - 1].Note? || Note(steps[|steps| - 1].client) in steps[..|steps| - 1]))
  }

  function After(names: seq<Name>, steps: seq<Step>): (s: State)
    ensures Inv(s)
  {
    if steps == [] then LoadedIsValid(names); Loaded(names)
    else Stepped(After(names, steps[..|steps| - 1]), steps[|steps| - 1])
  }

  /** A name was loaded at the start or by some client's mount that found it. */
  ghost predicate IsLoaded(names: seq<Name>, steps: seq<Step>, name: Name) {
    name in names || exists client :: Mount(client, name, true) in steps
  }

  lemma {:induction false} AdaptersAreLoaded(names: seq<Name>, steps: seq<Step>, name: Name)
    ensures name in After(names, steps).adapters <==> IsLoaded(names, steps, name)
  {
    if steps != [] {
      var rest, last := steps[..|steps| - 1], steps[|steps| - 1];
      AdaptersAreLoaded(names, rest, name);
      assert steps == rest + [last];
      assert last.Mount? ==> last == Mount(last.client, last.name, last.found);
    }
  }

  /** Any request but `current` is answered by its own name: that adapter if loaded, the base weights if not. */
  lemma {:induction false} NamedRequestsRunTheirName(names: seq<Name>, steps: seq<Step>, name: Name)
    requires name != CURRENT
    ensures Generated(After(names, steps), name).1 == Ran(if IsLoaded(names, steps, name) then Adapter(name) else Base)
  {
    AdaptersAreLoaded(names, steps, name);
  }

  /** The name `current` is the exception: here an adapter of that name is loaded, and the request runs the base weights. */
  lemma CurrentIsNotItsAdapter()
    ensures var s := After([CURRENT], []);
      CURRENT in s.adapters && Generated(s, CURRENT).1 == Ran(Base)
  {
  }

  // ---------------------------------------------------------------- whose mount `current` sees

  /** What the last successful mount or unmount by one of `who` left mounted. */
  function LastMount(steps: seq<Step>, who: set<Client>): Option<Name> {
    if steps == [] then None
    else
      var rest, last := steps[..|steps| - 1], steps[|steps| - 1];
      match last
      case Mount(client, name, found) => if found && client in who then Some(name) else LastMount(rest, who)
      case Unmount(client) => if client in who then None else LastMount(rest, who)
      case _ => LastMount(rest, who)
  }

  function Actors(steps: seq<Step>): (actors: set<Client>)
    ensures forall step :: step in steps ==> step.client in actors
  {
    if steps == [] then {}
    else
      assert steps == steps[..|steps| - 1] + [steps[|steps| - 1]];
      Actors(steps[..|steps| - 1]) + {steps[|steps| - 1].client}
  }

  lemma {:induction false} ClientsAreActors(names: seq<Name>, steps: seq<Step>)
    requires IsRun(steps)
    ensures After(names, steps).clients == Actors(steps)
  {
    if steps != [] { ClientsAreActors(names, steps[..|steps| - 1]); }
  }

  lemma {:induction false} MountedIsLastMount(names: seq<Name>, steps: seq<Step>, who: set<Client>)
    requires forall i :: 0 <= i < |steps| ==> steps[i].client in who
    ensures After(names, steps).mounted == LastMount(steps, who)
  {
    if steps != [] { MountedIsLastMount(names, steps[..|steps| - 1], who); }
  }

  lemma OneClient(clients: set<Client>, a: Client, b: Client)
    requires a in clients && b in clients && |clients| <= 1
    ensures a == b
  {
    assert a != b ==> |{a, b}| == 2;
    if a != b { Lists.SubsetSize({a, b}, clients); }
  }

  /** A served `current` request sees its own client's last mount or unmount; named requests in between do not matter. */
  lemma CurrentIsTheClientsOwn(names: seq<Name>, steps: seq<Step>, client: Client)
    requires IsRun(steps) && Note(client) in steps && After(names, steps).isPeft
    ensures var s := After(names, steps);
      var own := LastMount(steps, {client});
      Generated(s, CURRENT).1 == (
        if |Actors(steps)| > 1 then Refused
        else if own.Some? && own.value != "" then Ran(Adapter(own.value))
        else Ran(Base))
  {
    ClientsAreActors(names, steps);
    if |Actors(steps)| <= 1 {
      forall i | 0 <= i < |steps| ensures steps[i].client in {client} {
        assert steps[i] in steps;
        OneClient(Actors(steps), steps[i].client, client);
      }
      MountedIsLastMount(names, steps, {client});
    }
  }

  /** A loaded adapter runs under its own name exactly when that is not `current`, or the one client last mounted it. */
  lemma LoadedAdapterRunsExactly(names: seq<Name>, steps: seq<Step>, client: Client, name: Name)
    requires IsRun(steps) && Note(client) in steps && IsLoaded(names, steps, name)
    ensures Generated(After(names, steps), name).1 == Ran(Adapter(name)) <==>
      name != CURRENT || (|Actors(steps)| <= 1 && LastMount(steps, {client}) == Some(CURRENT))
  {
    AdaptersAreLoaded(names, steps, name);
    if name != CURRENT {
      NamedRequestsRunTheirName(names, steps, name);
    } else {
      CurrentIsTheClientsOwn(names, steps, client);
    }
  }

  lemma {:induction false} ClientsGrow(names: seq<Name>, steps: seq<Step>, k: nat)
    requires k <= |steps|
    ensures After(names, steps[..k]).clients <= After(names, steps).clients
    ensures After(names, steps[..k]).isPeft ==> After(names, steps).isPeft
  {
    if k < |steps| {
      ClientsGrow(names, steps[..|steps| - 1], k);
      assert steps[..|steps| - 1][..k] == steps[..k];
    } else {
      assert steps[..k] == steps;
    }
  }

  /** Once two clients have posted, every later `current` request is refused while an adapter is loaded. */
  lemma CurrentIsRefusedForGood(names: seq<Name>, steps: seq<Step>, k: nat)
    requires k <= |steps| && |After(names, steps[..k]).clients| > 1 && After(names, steps[..k]).isPeft
    ensures Generated(After(names, steps), CURRENT).1 == Refused
  {
    ClientsGrow(names, steps, k);
    var before, after := After(names, steps[..k]).clients, After(names, steps).clients;
    assert after == before + (after - before);
  }

  // ---------------------------------------------------------------- the process

  /** The shared state and the model, as the handlers update them. */
  class Server {
    var adapters: seq<Name>
    var mounted: Option<Name>
    var isPeft: bool
    var clients: set<Client>
    var model: Model

    ghost function Now(): State
      reads this
    {
      State(adapters, mounted, isPeft, clients, model)
    }

    ghost predicate Valid()
      reads this
    {
      Inv(Now())
    }

    /** `load`: `exists` says which adapter files are there. */
    constructor (requested: seq<Name>, exists_: Name -> bool)
      ensures Valid() && Now() == Loaded(Existing(requested, exists_))
    {
      var loaded: seq<Name> := [];
      var m := Model({}, None, false);
      for i := 0 to |requested|
        invariant loaded == Existing(requested[..i], exists_)
        invariant m == Loaded(loaded).model
      {
        assert requested[..i + 1][..i] == requested[..i];
        if exists_(requested[i]) {
          m := LoadAdapter(m, requested[i], loaded != []);
          loaded := loaded + [requested[i]];
        }
      }
      LoadedIsValid(loaded);
      adapters, mounted, isPeft, clients, model := loaded, None, loaded != [], {}, m;
      new;
      assert requested[..|requested|] == requested;
    }

    /** `_note_client`. */
    method NoteClient(client: Client)
      requires Valid()
      modifies this`clients
      ensures Valid() && Now() == Stepped(old(Now()), Note(client))
    {
      clients := clients + {client};
    }

    /** The locked section of `/api/caps/mount`; `found` is the outcome of `resolve_cap`. */
    method MountCap(client: Client, name: Name, found: bool) returns (ok: bool)
      requires Valid()
      modifies this
      ensures Valid() && Now() == Stepped(old(Now()), Mount(client, name, found))
      ensures ok == found
    {
      MountKeepsInv(Now(), name, found);
      if !found { return false; }
      if name !in adapters {
        model := LoadAdapter(model, name, isPeft);
        isPeft := true;
        adapters := adapters + [name];
      }
      model := SetAdapter(model, name);
      mounted := Some(name);
      ok := true;
    }

    /** The locked section of `/api/caps/unmount`: it replies with what was mounted. */
    method UnmountCap(client: Client) returns (was: Option<Name>)
      requires Valid()
      modifies this
      ensures Valid() && Now() == Stepped(old(Now()), Unmount(client))
      ensures was == old(mounted)
    {
      if isPeft { model := Disable(model); }
      was, mounted := mounted, None;
    }

    /** The locked section of `generate`: switch, then run. */
    method Run(client: Client, name: Name) returns (reply: Reply)
      requires Valid()
      modifies this`model
      ensures Valid() && Now() == Stepped(old(Now()), Generate(client, name))
      ensures reply == Generated(old(Now()), name).1
    {
      if isPeft {
        if name == CURRENT {
          if |clients| > 1 { return Refused; }
          if mounted.Some? && mounted.value != "" {
            model := SetAdapter(model, mounted.value);
          } else {
            model := Disable(model);
          }
        } else if name in adapters {
          model := SetAdapter(model, name);
        } else {
          model := Disable(model);
        }
      }
      reply := Ran(if isPeft && model.enabled && model.active.Some? then Adapter(model.active.value) else Base);
    }
  }
}
