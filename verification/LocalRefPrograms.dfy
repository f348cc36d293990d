/**
 Programs that use ScopedLocalRef objects: performed by the class, an operation has the effect that
 histories give it, so what is conserved in every history is conserved by the class.
 */
module LocalRefPrograms {
  import opened LocalRefs

  /** What was deleted through one env, in order. */
  function DeletedThrough(deletions: seq<Deletion>, e: EnvId): seq<Ref> {
    if deletions == [] then []
    else
      var last := deletions[|deletions| - 1];
      DeletedThrough(deletions[..|deletions| - 1], e) + if last.env == e then [last.ref] else []
  }

  /** The environments, by id, are distinct, and deleted what `deletions` says. */
  ghost predicate EnvsRepresent(envs: seq<JniEnv>, deletions: seq<Deletion>)
    reads envs
  {
    && (forall d, e | 0 <= d < |envs| && 0 <= e < |envs| && d != e :: envs[d] != envs[e])
    && (forall e | 0 <= e < |envs| :: envs[e].Valid() && envs[e].deleted == DeletedThrough(deletions, e))
  }

  ghost predicate Holds(object_: ScopedLocalRef, envs: seq<JniEnv>, s: Scoped)
    reads object_
  {
    s.env < |envs| && object_.mEnv == envs[s.env] && object_.mLocalRef == s.ref
  }

  /** The objects alive, by variable, are distinct, and hold what `scoped` says. */
  ghost predicate ObjectsRepresent(objects: map<Variable, ScopedLocalRef>, envs: seq<JniEnv>, scoped: map<Variable, Scoped>)
    reads objects.Values
  {
    && objects.Keys == scoped.Keys
    && (forall x, y | x in objects && y in objects && x != y :: objects[x] != objects[y])
    && (forall x | x in objects :: Holds(objects[x], envs, scoped[x]))
  }

  /** Objects and environments are in the state that `w` describes. */
  ghost predicate Represents(objects: map<Variable, ScopedLocalRef>, envs: seq<JniEnv>, w: World)
    reads objects.Values, envs
  {
    EnvsRepresent(envs, w.deletions) && ObjectsRepresent(objects, envs, w.scoped)
  }

  lemma DeletedThroughReset(w: World, x: Variable, ptr: Ref, e: EnvId)
    requires x in w.scoped
    ensures DeletedThrough(AfterReset(w, x, ptr).deletions, e) ==
              DeletedThrough(w.deletions, e) +
              if e == w.scoped[x].env then DeletedByReset(w.scoped[x].ref, ptr) else []
  {
    var ds, gone := AfterReset(w, x, ptr).deletions, DeletedByReset(w.scoped[x].ref, ptr);
    if gone == [] {
      assert ds == w.deletions;
    } else {
      assert ds[..|ds| - 1] == w.deletions;
    }
  }

  method PerformConstruct(objects: map<Variable, ScopedLocalRef>, envs: seq<JniEnv>, x: Variable, env: EnvId, ref: Ref,
                          ghost w: World)
    returns (objects': map<Variable, ScopedLocalRef>)
    requires Represents(objects, envs, w) && Allowed(w, Construct(x, env, ref)) && env < |envs|
    ensures Represents(objects', envs, After(w, Construct(x, env, ref)))
    ensures fresh(objects'.Values - objects.Values)
  {
    var created := new ScopedLocalRef(envs[env], ref);
    objects' := objects[x := created];
  }

  method PerformMove(objects: map<Variable, ScopedLocalRef>, envs: seq<JniEnv>, x: Variable, from: Variable, ghost w: World)
    returns (objects': map<Variable, ScopedLocalRef>)
    requires Represents(objects, envs, w) && Allowed(w, MoveConstruct(x, from))
    modifies objects.Values
    ensures Represents(objects', envs, After(w, MoveConstruct(x, from)))
    ensures fresh(objects'.Values - objects.Values)
  {
    hide DeletedThrough, JniEnv.Valid;
    var created := new ScopedLocalRef.Move(objects[from]);
    objects' := objects[x := created];
  }

  /** From `deletions` to `deletions'`, only `gone` was deleted, through env number d. */
  ghost predicate DeletesOnly(deletions: seq<Deletion>, deletions': seq<Deletion>, d: EnvId, gone: seq<Ref>) {
    && DeletedThrough(deletions', d) == DeletedThrough(deletions, d) + gone
    && forall e: nat | e != d :: DeletedThrough(deletions', e) == DeletedThrough(deletions, e)
  }

  lemma ResetDeletes(w: World, x: Variable, ptr: Ref)
    requires x in w.scoped
    ensures AfterReset(w, x, ptr).scoped == w.scoped[x := w.scoped[x].(ref := ptr)]
    ensures DeletesOnly(w.deletions, AfterReset(w, x, ptr).deletions,
                        w.scoped[x].env, DeletedByReset(w.scoped[x].ref, ptr))
  {
    forall e: nat {
      DeletedThroughReset(w, x, ptr, e);
    }
  }

  /** What a move assignment does, object by object and env by env. */
  ghost predicate MoveAssigned(w: World, w': World, x: Variable, from: Variable) {
    && x in w.scoped && from in w.scoped && w'.scoped.Keys == w.scoped.Keys
    && (forall z | z in w.scoped && z !in {x, from} :: w'.scoped[z] == w.scoped[z])
    && w'.scoped[x] == w.scoped[from]
    && (x != from ==> w'.scoped[from] == w.scoped[from].(ref := NULL_REF))
    && DeletesOnly(w.deletions, w'.deletions, w.scoped[x].env,
                   if x == from then [] else DeletedByReset(w.scoped[x].ref, w.scoped[from].ref))
  }

  lemma MoveAssignEffect(w: World, x: Variable, from: Variable)
    requires x in w.scoped && from in w.scoped
    ensures MoveAssigned(w, After(w, MoveAssignTo(x, from)), x, from)
  {
    hide DeletesOnly, AfterReset;
    var released, moved, w' := AfterRelease(w, from), w.scoped[from].ref, After(w, MoveAssignTo(x, from));
    ResetDeletes(released, x, moved);
    assert released.deletions == w.deletions && w'.deletions == AfterReset(released, x, moved).deletions;
    assert DeletedByReset(NULL_REF, moved) == [];
  }

  /** Env number d has deleted `gone`, and the others nothing. */
  lemma EnvsFollow(envs: seq<JniEnv>, d: EnvId, deletions: seq<Deletion>, deletions': seq<Deletion>, gone: seq<Ref>)
    requires DeletesOnly(deletions, deletions', d, gone)
    requires d < |envs| && envs[d].deleted == DeletedThrough(deletions, d) + gone
    requires forall e | 0 <= e < |envs| && e != d :: envs[e].deleted == DeletedThrough(deletions, e)
    requires forall e | 0 <= e < |envs| :: envs[e].Valid()
    requires forall e, f | 0 <= e < |envs| && 0 <= f < |envs| && e != f :: envs[e] != envs[f]
    ensures EnvsRepresent(envs, deletions')
  {
    hide DeletedThrough;
  }

  /** The objects other than those of x and y are as they were. */
  lemma ObjectsFollow(objects: map<Variable, ScopedLocalRef>, envs: seq<JniEnv>, x: Variable, y: Variable,
                      scoped: map<Variable, Scoped>, scoped': map<Variable, Scoped>)
    requires objects.Keys == scoped.Keys == scoped'.Keys && x in scoped && y in scoped
    requires forall z, z' | z in objects && z' in objects && z != z' :: objects[z] != objects[z']
    requires forall z | z in objects && z !in {x, y} :: scoped'[z] == scoped[z] && Holds(objects[z], envs, scoped[z])
    requires Holds(objects[x], envs, scoped'[x]) && Holds(objects[y], envs, scoped'[y])
    ensures ObjectsRepresent(objects, envs, scoped')
  {
  }

  /** ResetTo, after what is adopted has been recorded. */
  method PerformReset(objects: map<Variable, ScopedLocalRef>, envs: seq<JniEnv>, x: Variable, ptr: Ref, ghost w: World)
    requires Represents(objects, envs, w) && x in w.scoped
    modifies objects.Values, envs
    ensures Represents(objects, envs, AfterReset(w, x, ptr))
  {
    hide AfterReset, DeletedThrough, DeletedByReset, JniEnv.Valid, Elements, DeletesOnly;
    ResetDeletes(w, x, ptr);
    objects[x].Reset(ptr);
    assert forall e | 0 <= e < |envs| && e != w.scoped[x].env :: unchanged(envs[e]);
    EnvsFollow(envs, w.scoped[x].env, w.deletions, AfterReset(w, x, ptr).deletions,
               DeletedByReset(w.scoped[x].ref, ptr));
    ObjectsFollow(objects, envs, x, x, w.scoped, AfterReset(w, x, ptr).scoped);
  }

  method PerformDestroy(objects: map<Variable, ScopedLocalRef>, envs: seq<JniEnv>, x: Variable, ghost w: World)
    requires Represents(objects, envs, w) && x in w.scoped
    modifies objects.Values, envs
    ensures Represents(objects, envs, AfterReset(w, x, NULL_REF))
  {
    hide AfterReset, DeletedThrough, JniEnv.Valid, Elements, DeletesOnly;
    ResetDeletes(w, x, NULL_REF);
    objects[x].Destroy();
    assert forall e | 0 <= e < |envs| && e != w.scoped[x].env :: unchanged(envs[e]);
    EnvsFollow(envs, w.scoped[x].env, w.deletions, AfterReset(w, x, NULL_REF).deletions, Owned(w.scoped[x].ref));
    ObjectsFollow(objects, envs, x, x, w.scoped, AfterReset(w, x, NULL_REF).scoped);
  }

  lemma ObjectGone(objects: map<Variable, ScopedLocalRef>, envs: seq<JniEnv>, w: World, x: Variable)
    requires Represents(objects, envs, w)
    ensures Represents(objects - {x}, envs, w.(scoped := w.scoped - {x}))
  {
  }

  method PerformMoveAssign(objects: map<Variable, ScopedLocalRef>, envs: seq<JniEnv>, x: Variable, from: Variable,
                           ghost w: World, ghost w': World)
    requires Represents(objects, envs, w) && MoveAssigned(w, w', x, from)
    modifies objects.Values, envs
    ensures Represents(objects, envs, w')
  {
    hide DeletedThrough, DeletedByReset, JniEnv.Valid, Elements, DeletesOnly;
    objects[x].MoveAssign(objects[from]);
    assert forall e | 0 <= e < |envs| && e != w.scoped[x].env :: unchanged(envs[e]);
    EnvsFollow(envs, w.scoped[x].env, w.deletions, w'.deletions,
               if x == from then [] else DeletedByReset(w.scoped[x].ref, w.scoped[from].ref));
    ObjectsFollow(objects, envs, x, from, w.scoped, w'.scoped);
  }

  method PerformRelease(objects: map<Variable, ScopedLocalRef>, envs: seq<JniEnv>, x: Variable, ghost w: World)
    requires Represents(objects, envs, w) && x in w.scoped
    modifies objects.Values
    ensures Represents(objects, envs, After(w, ReleaseOf(x)))
  {
    hide DeletedThrough, JniEnv.Valid;
    var released := objects[x].Release();
  }

  /** Every operation of the class does what the histories say. */
  method Perform(objects: map<Variable, ScopedLocalRef>, envs: seq<JniEnv>, op: Operation, ghost w: World)
    returns (objects': map<Variable, ScopedLocalRef>)
    requires Represents(objects, envs, w) && Allowed(w, op) && (op.Construct? ==> op.env < |envs|)
    modifies objects.Values, envs
    ensures Represents(objects', envs, After(w, op))
    ensures fresh(objects'.Values - objects.Values)
  {
    hide DeletedThrough, EnvsRepresent, ObjectsRepresent, MoveAssigned;
    objects' := objects;
    match op
    case Construct(x, env, ref) =>
      objects' := PerformConstruct(objects, envs, x, env, ref, w);
    case MoveConstruct(x, from) =>
      objects' := PerformMove(objects, envs, x, from, w);
    case ResetTo(x, ref) =>
      PerformReset(objects, envs, x, ref, if ref == w.scoped[x].ref then w else Adopt(w, ref, w.scoped[x].env));
    case ReleaseOf(x) =>
      PerformRelease(objects, envs, x, w);
    case MoveAssignTo(x, from) =>
      MoveAssignEffect(w, x, from);
      PerformMoveAssign(objects, envs, x, from, w, After(w, op));
    case Destruct(x) =>
      PerformDestroy(objects, envs, x, w);
      ObjectGone(objects, envs, AfterReset(w, x, NULL_REF), x);
      objects' := objects - {x};
  }

  // ------------------------------------------------------------------------------ whole programs

  /**
   Conservation in terms of objects and environments: each env deleted only references adopted with
   it, each once, and none that an object owns; no two objects own the same reference.
   */
  ghost predicate ConservedByObjects(objects: map<Variable, ScopedLocalRef>, envs: seq<JniEnv>, adoptedWith: map<Ref, EnvId>)
    reads objects.Values, envs
  {
    && (forall e, r | 0 <= e < |envs| && r in envs[e].deleted :: r in adoptedWith && adoptedWith[r] == e)
    && (forall e, j, k | 0 <= e < |envs| && 0 <= j < k < |envs[e].deleted| :: envs[e].deleted[j] != envs[e].deleted[k])
    && (forall x, e | x in objects && 0 <= e < |envs| :: objects[x].mLocalRef !in envs[e].deleted)
    && (forall x, y | x in objects && y in objects && x != y && objects[x].mLocalRef != NULL_REF ::
          objects[x].mLocalRef != objects[y].mLocalRef)
  }

  lemma {:induction false} DeletedThroughIff(deletions: seq<Deletion>, e: EnvId, r: Ref)
    ensures r in DeletedThrough(deletions, e) <==> Deletion(e, r) in deletions
  {
    if deletions != [] {
      var last := |deletions| - 1;
      DeletedThroughIff(deletions[..last], e, r);
      assert deletions == deletions[..last] + [deletions[last]];
    }
  }

  lemma {:induction false} DeletedThroughOnce(deletions: seq<Deletion>, e: EnvId)
    requires forall j, k | 0 <= j < k < |deletions| :: deletions[j].ref != deletions[k].ref
    ensures forall j, k | 0 <= j < k < |DeletedThrough(deletions, e)| ::
              DeletedThrough(deletions, e)[j] != DeletedThrough(deletions, e)[k]
  {
    if deletions != [] {
      var last := |deletions| - 1;
      DeletedThroughOnce(deletions[..last], e);
      DeletedThroughIff(deletions[..last], e, deletions[last].ref);
    }
  }

  /** What histories conserve, the objects and environments that they describe conserve. */
  lemma ConservedWhenRepresented(objects: map<Variable, ScopedLocalRef>, envs: seq<JniEnv>, w: World)
    requires Represents(objects, envs, w) && Conserved(w)
    ensures ConservedByObjects(objects, envs, w.adoptedWith)
  {
    hide DeletedThrough, NothingLost, IsDeleted;
    forall e: nat, r: Ref ensures r in DeletedThrough(w.deletions, e) <==> Deletion(e, r) in w.deletions {
      DeletedThroughIff(w.deletions, e, r);
    }
    forall e: nat {
      DeletedThroughOnce(w.deletions, e);
    }
    forall d | d in w.deletions
      ensures d.ref in w.adoptedWith && w.adoptedWith[d.ref] == d.env && !IsOwned(w, d.ref)
    {
      var k :| 0 <= k < |w.deletions| && w.deletions[k] == d;
    }
    forall x | x in objects ensures IsOwned(w, objects[x].mLocalRef) {
      assert w.scoped[x].ref == objects[x].mLocalRef;
    }
    hide DeletionsOk, IsOwned;
  }

  /** A whole program: the objects end up as its history says, and nothing is deleted twice or while owned. */
  method Run(envs: seq<JniEnv>, ops: seq<Operation>, ghost worlds: seq<World>)
    returns (objects: map<Variable, ScopedLocalRef>)
    requires EnvsRepresent(envs, []) && IsHistory(worlds, ops)
    requires forall i | 0 <= i < |ops| && ops[i].Construct? :: ops[i].env < |envs|
    modifies envs
    ensures Represents(objects, envs, worlds[|ops|])
    ensures ConservedByObjects(objects, envs, worlds[|ops|].adoptedWith)
  {
    hide After, Allowed, EnvsRepresent, Conserved, ConservedByObjects;
    objects := map[];
    var i := 0;
    while i < |ops|
      invariant i <= |ops|
      invariant fresh(objects.Values)
      invariant Represents(objects, envs, worlds[i])
    {
      objects := Perform(objects, envs, ops[i], worlds[i]);
      i := i + 1;
    }
    ConservedInHistories(worlds, ops, i);
    ConservedWhenRepresented(objects, envs, worlds[i]);
  }
}
