/** Which adapters are loaded at the start, and which step decides what is mounted. */
module AdapterLaws {
  import opened Wrappers
  import opened Lists
  import opened AdapterServer

  ghost predicate AreExisting(at: seq<nat>, requested: seq<Name>, exists_: Name -> bool) {
    forall i: nat :: i < |requested| ==> (i in at <==> exists_(requested[i]))
  }

  lemma AreExistingStep(at: seq<nat>, requested: seq<Name>, exists_: Name -> bool)
    requires requested != [] && |requested| - 1 !in at && AreExisting(at, requested[..|requested| - 1], exists_)
    ensures AreExisting(if exists_(requested[|requested| - 1]) then at + [|requested| - 1] else at, requested, exists_)
  {
    assert forall i: nat :: i < |requested| - 1 ==> requested[..|requested| - 1][i] == requested[i];
  }

  /** The existing adapters are the requested ones whose files are there, in the requested order. */
  lemma {:induction false} ExistingSelects(requested: seq<Name>, exists_: Name -> bool) returns (at: seq<nat>)
    ensures Selects(at, requested, Existing(requested, exists_)) && AreExisting(at, requested, exists_)
  {
    at := [];
    if requested != [] {
      var n: nat := |requested| - 1;
      at := ExistingSelects(requested[..n], exists_);
      SelectsMore(at, requested, Existing(requested[..n], exists_));
      AreExistingStep(at, requested, exists_);
      if exists_(requested[n]) { at := at + [n]; }
    }
  }

  /** A mount that found its capability, or an unmount, by one of `who`. */
  predicate Decides(step: Step, who: set<Client>) {
    match step
    case Mount(client, _, found) => found && client in who
    case Unmount(client) => client in who
    case _ => false
  }

  ghost predicate NoneDecides(steps: seq<Step>, who: set<Client>, from: nat) {
    forall i: nat :: from <= i < |steps| ==> !Decides(steps[i], who)
  }

  /** Before any deciding step nothing is mounted. */
  lemma {:induction false} UndecidedMeansNone(steps: seq<Step>, who: set<Client>)
    requires NoneDecides(steps, who, 0)
    ensures LastMount(steps, who) == None
  {
    if steps != [] {
      assert !Decides(steps[|steps| - 1], who);
      UndecidedMeansNone(steps[..|steps| - 1], who);
    }
  }

  /** After one, what the last of them left counts: the mounted name, or nothing. */
  lemma {:induction false} LastDecisionCounts(steps: seq<Step>, who: set<Client>, i: nat)
    requires i < |steps| && Decides(steps[i], who) && NoneDecides(steps, who, i + 1)
    ensures LastMount(steps, who) == if steps[i].Mount? then Some(steps[i].name) else None
  {
    var n: nat := |steps| - 1;
    if i < n {
      assert !Decides(steps[n], who) && steps[..n][i] == steps[i];
      LastDecisionCounts(steps[..n], who, i);
    }
  }
}
