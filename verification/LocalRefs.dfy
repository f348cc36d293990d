/**
 JNI local references and the smart pointer that deletes one when it goes out of scope: the class
 over a JNI environment, and the conservation law over every history of its operations.
 */
module LocalRefs {
  import opened Wrappers

  /** A local reference; 0 is the null reference. */
  type Ref = nat

  const NULL_REF: Ref := 0

  /**
   The part of a JNI environment that local references touch: which of them are live, the most
   that ever were, the DeleteLocalRef calls so far, the strings and arrays they denote, and the pending-exception flag.
   */
  class JniEnv {
    var locals: set<Ref>
    var peak: nat
    var next: Ref
    var deleted: seq<Ref>
    var strings: map<Ref, string>
    var arrays: map<Ref, seq<Option<string>>>
    var pending: bool

    ghost predicate Valid()
      reads this
    {
      && 0 < next
      && (forall r | r in locals || r in strings || r in arrays :: 0 < r < next)
      && |locals| <= peak
    }

    method DeleteLocalRef(r: Ref)
      requires Valid()
      modifies this`locals, this`deleted
      ensures Valid() && locals == old(locals) - {r} && deleted == old(deleted) + [r]
    {
      SmallerWithout(locals, r);
      locals := locals - {r};
      deleted := deleted + [r];
    }

    method ExceptionCheck() returns (raised: bool)
      ensures raised == pending
    {
      raised := pending;
    }

    /** Hands out a reference that is not in use. */
    method NewLocalRef() returns (r: Ref)
      requires Valid()
      modifies this`locals, this`peak, this`next
      ensures Valid() && r == old(next) && next == r + 1
      ensures r !in old(locals) && r !in strings && r !in arrays
      ensures locals == old(locals) + {r}
      ensures peak == if old(peak) < |old(locals)| + 1 then |old(locals)| + 1 else old(peak)
    {
      r := next;
      next := next + 1;
      locals := locals + {r};
      if peak < |locals| {
        peak := |locals|;
      }
    }

    /** Fails with a pending exception, or makes an array of nulls. */
    method NewObjectArray(count: nat) returns (r: Ref)
      requires Valid() && !pending
      modifies this
      ensures Valid() && strings == old(strings)
      ensures r == NULL_REF ==> pending && locals == old(locals) && arrays == old(arrays) && peak == old(peak)
      ensures r != NULL_REF ==>
                && !pending && r !in old(locals) && locals == old(locals) + {r}
                && r !in old(arrays) && arrays == old(arrays)[r := seq(count, _ => None)]
                && peak == if old(peak) < |old(locals)| + 1 then |old(locals)| + 1 else old(peak)
    {
      var fails: bool := *;
      if fails {
        pending := true;
        return NULL_REF;
      }
      r := NewLocalRef();
      arrays := arrays[r := seq(count, _ => None)];
    }

    /** A null argument gives null; otherwise it fails with a pending exception, or makes a string. */
    method NewStringUTF(chars: Option<string>) returns (r: Ref)
      requires Valid() && !pending
      modifies this
      ensures Valid() && arrays == old(arrays)
      ensures pending ==> r == NULL_REF && chars.Some?
      ensures r == NULL_REF ==> (chars.None? || pending) && locals == old(locals) && strings == old(strings) && peak == old(peak)
      ensures r != NULL_REF ==>
                && chars.Some? && r !in old(locals) && locals == old(locals) + {r}
                && strings == old(strings)[r := chars.value]
                && peak == if old(peak) < |old(locals)| + 1 then |old(locals)| + 1 else old(peak)
    {
      if chars.None? {
        return NULL_REF;
      }
      var fails: bool := *;
      if fails {
        pending := true;
        return NULL_REF;
      }
      r := NewLocalRef();
      strings := strings[r := chars.value];
    }

    /** Stores the string, or null, unless it fails with a pending exception. */
    method SetObjectArrayElement(array_: Ref, i: nat, value: Ref)
      requires Valid() && !pending
      requires array_ in locals && array_ in arrays && i < |arrays[array_]|
      requires value == NULL_REF || (value in locals && value in strings)
      modifies this`arrays, this`pending
      ensures Valid()
      ensures arrays == if pending then old(arrays)
                        else old(arrays)[array_ := old(arrays)[array_][i := StringAt(strings, value)]]
    {
      var fails: bool := *;
      if fails {
        pending := true;
      } else {
        arrays := arrays[array_ := arrays[array_][i := StringAt(strings, value)]];
      }
    }
  }

  function StringAt(strings: map<Ref, string>, r: Ref): Option<string>
    requires r == NULL_REF || r in strings
  {
    if r == NULL_REF then None else Some(strings[r])
  }

  lemma SmallerWithout(s: set<Ref>, r: Ref)
    ensures |s - {r}| == if r in s then |s| - 1 else |s|
  {
    if r !in s {
      assert s - {r} == s;
    }
  }

  /** ScopedLocalRef: C++ destroys it at the end of its scope, here Destroy is called there. */
  class ScopedLocalRef {
    var mEnv: JniEnv
    var mLocalRef: Ref

    constructor (env: JniEnv, localRef: Ref)
      ensures mEnv == env && mLocalRef == localRef
    {
      mEnv := env;
      mLocalRef := localRef;
    }

    /** The move constructor: takes over the reference and leaves `from` empty. */
    constructor Move(from: ScopedLocalRef)
      modifies from`mLocalRef
      ensures mEnv == from.mEnv && mLocalRef == old(from.mLocalRef)
      ensures from.mLocalRef == NULL_REF
    {
      mEnv := from.mEnv;
      mLocalRef := from.mLocalRef;
      new;
      from.mLocalRef := NULL_REF;
    }

    method Reset(ptr: Ref)
      requires mEnv.Valid()
      modifies this`mLocalRef, mEnv`locals, mEnv`deleted
      ensures mEnv.Valid() && mLocalRef == ptr
      ensures mEnv.deleted == old(mEnv.deleted) + DeletedByReset(old(mLocalRef), ptr)
      ensures mEnv.locals == old(mEnv.locals) - Elements(DeletedByReset(old(mLocalRef), ptr))
      ensures DeletedByReset(old(mLocalRef), ptr) == if old(mLocalRef) in {ptr, 0} then [] else [old(mLocalRef)]
    {
      if ptr != mLocalRef {
        if mLocalRef != NULL_REF {
          mEnv.DeleteLocalRef(mLocalRef);
        }
        mLocalRef := ptr;
      }
    }

    method Release() returns (localRef: Ref)
      modifies this`mLocalRef
      ensures localRef == old(mLocalRef) && mLocalRef == NULL_REF
    {
      localRef := mLocalRef;
      mLocalRef := NULL_REF;
    }

    /**
     Move assignment, also from itself.  What this object owned before is deleted through the env
     it came with; assigning an object to itself changes nothing.
     */
    method MoveAssign(s: ScopedLocalRef)
      requires mEnv.Valid()
      modifies this, s`mLocalRef, mEnv`locals, mEnv`deleted
      ensures old(mEnv).Valid() && mEnv == old(s.mEnv) && mLocalRef == old(s.mLocalRef)
      ensures s != this ==> s.mLocalRef == NULL_REF && s.mEnv == old(s.mEnv)
      ensures var gone := if s == this then [] else DeletedByReset(old(mLocalRef), old(s.mLocalRef));
              && old(mEnv).deleted == old(mEnv.deleted) + gone
              && old(mEnv).locals == old(mEnv.locals) - Elements(gone)
              && gone == if s == this || old(mLocalRef) in {old(s.mLocalRef), 0} then [] else [old(mLocalRef)]
    {
      var moved := s.Release();
      Reset(moved);
      mEnv := s.mEnv;
    }

    method Destroy()
      requires mEnv.Valid()
      modifies this`mLocalRef, mEnv`locals, mEnv`deleted
      ensures mEnv.Valid() && mLocalRef == NULL_REF
      ensures mEnv.deleted == old(mEnv.deleted) + Owned(old(mLocalRef))
      ensures mEnv.locals == old(mEnv.locals) - Elements(Owned(old(mLocalRef)))
      ensures Owned(old(mLocalRef)) == if old(mLocalRef) == 0 then [] else [old(mLocalRef)]
    {
      Reset(NULL_REF);
    }
  }

  /** The references that a field with this value stands for. */
  function Owned(r: Ref): seq<Ref> {
    if r == NULL_REF then [] else [r]
  }

  /** What reset(ptr) deletes when the field holds `r`. */
  function DeletedByReset(r: Ref, ptr: Ref): seq<Ref> {
    if r == ptr then [] else Owned(r)
  }

  function Elements(s: seq<Ref>): set<Ref> {
    set r | r in s
  }

  // ---------------------------------------------------------------------- histories, on values

  type EnvId = nat
  type Variable = nat

  datatype Scoped = Scoped(env: EnvId, ref: Ref)

  datatype Deletion = Deletion(env: EnvId, ref: Ref)

  /**
   The ScopedLocalRef objects alive, the references that were released to the caller, the
   DeleteLocalRef calls made, and the env with which each reference was last adopted.
   */
  datatype World = World(
    scoped: map<Variable, Scoped>,
    released: set<Ref>,
    deletions: seq<Deletion>,
    adoptedWith: map<Ref, EnvId>)

  const EMPTY_WORLD := World(map[], {}, [], map[])

  datatype Operation =
    | Construct(x: Variable, env: EnvId, ref: Ref)
    | MoveConstruct(x: Variable, from: Variable)
    | ResetTo(x: Variable, ref: Ref)
    | ReleaseOf(x: Variable)
    | MoveAssignTo(x: Variable, from: Variable)
    | Destruct(x: Variable)

  /** A reference may be adopted unless someone owns it already or it is gone. */
  predicate Adoptable(w: World, r: Ref) {
    r == NULL_REF || r !in w.adoptedWith || r in w.released
  }

  /** Objects are used between construction and destruction, and references adopted one at a time. */
  predicate Allowed(w: World, op: Operation) {
    match op
    case Construct(x, _, ref) => x !in w.scoped && Adoptable(w, ref)
    case MoveConstruct(x, from) => x !in w.scoped && from in w.scoped
    case ResetTo(x, ref) => x in w.scoped && (ref == w.scoped[x].ref || Adoptable(w, ref))
    case ReleaseOf(x) => x in w.scoped
    case MoveAssignTo(x, from) => x in w.scoped && from in w.scoped
    case Destruct(x) => x in w.scoped
  }

  function Adopt(w: World, r: Ref, env: EnvId): World {
    if r == NULL_REF then w
    else w.(released := w.released - {r}, adoptedWith := w.adoptedWith[r := env])
  }

  /** reset(ptr) */
  function AfterReset(w: World, x: Variable, ptr: Ref): World
    requires x in w.scoped
  {
    var s := w.scoped[x];
    var gone := DeletedByReset(s.ref, ptr);
    w.(scoped := w.scoped[x := s.(ref := ptr)],
       deletions := w.deletions + seq(|gone|, i requires 0 <= i < |gone| => Deletion(s.env, gone[i])))
  }

  /** release(), without handing the reference to anyone */
  function AfterRelease(w: World, x: Variable): World
    requires x in w.scoped
  {
    w.(scoped := w.scoped[x := w.scoped[x].(ref := NULL_REF)])
  }

  function After(w: World, op: Operation): World
    requires Allowed(w, op)
  {
    match op
    case Construct(x, env, ref) =>
      var w' := Adopt(w, ref, env);
      w'.(scoped := w'.scoped[x := Scoped(env, ref)])
    case MoveConstruct(x, from) =>
      var w' := AfterRelease(w, from);
      w'.(scoped := w'.scoped[x := w.scoped[from]])
    case ResetTo(x, ref) =>
      if ref == w.scoped[x].ref then AfterReset(w, x, ref) else AfterReset(Adopt(w, ref, w.scoped[x].env), x, ref)
    case ReleaseOf(x) =>
      AfterRelease(w, x).(released := w.released + Elements(Owned(w.scoped[x].ref)))
    case MoveAssignTo(x, from) =>
      var moved := w.scoped[from].ref;
      var w' := AfterReset(AfterRelease(w, from), x, moved);
      w'.(scoped := w'.scoped[x := w'.scoped[x].(env := w'.scoped[from].env)])
    case Destruct(x) =>
      var w' := AfterReset(w, x, NULL_REF);
      w'.(scoped := w'.scoped - {x})
  }

  predicate IsOwned(w: World, r: Ref) {
    exists x | x in w.scoped :: w.scoped[x].ref == r
  }

  predicate IsDeleted(w: World, r: Ref) {
    exists k | 0 <= k < |w.deletions| :: w.deletions[k].ref == r
  }

  /** Owners are distinct, and hold the env that their reference was adopted with. */
  ghost predicate OwnersOk(w: World) {
    && NULL_REF !in w.adoptedWith
    && w.released <= w.adoptedWith.Keys
    && (forall x | x in w.scoped && w.scoped[x].ref != NULL_REF ::
          && w.scoped[x].ref in w.adoptedWith && w.adoptedWith[w.scoped[x].ref] == w.scoped[x].env
          && w.scoped[x].ref !in w.released)
    && (forall x, y | x in w.scoped && y in w.scoped && x != y && w.scoped[x].ref != NULL_REF ::
          w.scoped[x].ref != w.scoped[y].ref)
  }

  /** Nothing deleted is owned, released or deleted again, and the right env deleted it. */
  ghost predicate DeletionsOk(w: World) {
    && (forall k | 0 <= k < |w.deletions| ::
          && w.deletions[k].ref in w.adoptedWith && w.adoptedWith[w.deletions[k].ref] == w.deletions[k].env
          && w.deletions[k].ref !in w.released
          && !IsOwned(w, w.deletions[k].ref))
    && (forall j, k | 0 <= j < k < |w.deletions| :: w.deletions[j].ref != w.deletions[k].ref)
  }

  ghost predicate NothingLost(w: World) {
    forall r | r in w.adoptedWith :: IsOwned(w, r) || r in w.released || IsDeleted(w, r)
  }

  /** Every adopted reference is in exactly one of three places: owned, released or deleted. */
  ghost predicate Conserved(w: World) {
    && OwnersOk(w)
    && DeletionsOk(w)
    && NothingLost(w)
  }

  predicate IsHistory(worlds: seq<World>, ops: seq<Operation>) {
    && |worlds| == |ops| + 1
    && worlds[0] == EMPTY_WORLD
    && forall i | 0 <= i < |ops| :: Allowed(worlds[i], ops[i]) && worlds[i + 1] == After(worlds[i], ops[i])
  }

  /** No object but `x` owns what `s` would own, and `s` has the right env for it. */
  ghost predicate MayOwn(w: World, x: Variable, s: Scoped) {
    s.ref == NULL_REF
    || (&& s.ref in w.adoptedWith && w.adoptedWith[s.ref] == s.env && s.ref !in w.released
        && forall y | y in w.scoped && y != x :: w.scoped[y].ref != s.ref)
  }

  lemma OwnerPlaced(w: World, x: Variable, s: Scoped)
    requires OwnersOk(w) && MayOwn(w, x, s)
    ensures OwnersOk(w.(scoped := w.scoped[x := s]))
  {
  }

  lemma OwnersAdopt(w: World, r: Ref, env: EnvId)
    requires OwnersOk(w) && Adoptable(w, r)
    ensures OwnersOk(Adopt(w, r, env))
    ensures forall x :: MayOwn(Adopt(w, r, env), x, Scoped(env, r))
  {
  }

  lemma OwnersReset(w: World, x: Variable, ptr: Ref)
    requires OwnersOk(w) && x in w.scoped && MayOwn(w, x, w.scoped[x].(ref := ptr))
    ensures OwnersOk(AfterReset(w, x, ptr))
  {
    var placed := w.(scoped := w.scoped[x := w.scoped[x].(ref := ptr)]);
    OwnerPlaced(w, x, w.scoped[x].(ref := ptr));
    assert AfterReset(w, x, ptr) == placed.(deletions := AfterReset(w, x, ptr).deletions);
  }

  /** What an object gave up is owned by nobody, and may go to any object. */
  lemma OwnersRelease(w: World, x: Variable)
    requires OwnersOk(w) && x in w.scoped
    ensures OwnersOk(AfterRelease(w, x))
    ensures forall y :: MayOwn(AfterRelease(w, x), y, w.scoped[x])
  {
  }

  lemma OwnersMoveAssign(w: World, x: Variable, from: Variable)
    requires OwnersOk(w) && Allowed(w, MoveAssignTo(x, from))
    ensures OwnersOk(After(w, MoveAssignTo(x, from)))
  {
    var released, w' := AfterRelease(w, from), After(w, MoveAssignTo(x, from));
    OwnersRelease(w, from);
    OwnerPlaced(released, x, w.scoped[from]);
    assert w' == released.(scoped := released.scoped[x := w.scoped[from]], deletions := w'.deletions) by {
      hide OwnersOk, MayOwn;
    }
  }

  lemma OwnersAfter(w: World, op: Operation)
    requires OwnersOk(w) && Allowed(w, op)
    ensures OwnersOk(After(w, op))
  {
    match op
    case Construct(x, env, ref) =>
      OwnersAdopt(w, ref, env);
      OwnerPlaced(Adopt(w, ref, env), x, Scoped(env, ref));
    case MoveConstruct(x, from) =>
      OwnersRelease(w, from);
      OwnerPlaced(AfterRelease(w, from), x, w.scoped[from]);
    case ResetTo(x, ref) =>
      if ref == w.scoped[x].ref {
        OwnersReset(w, x, ref);
      } else {
        OwnersAdopt(w, ref, w.scoped[x].env);
        OwnersReset(Adopt(w, ref, w.scoped[x].env), x, ref);
      }
    case ReleaseOf(x) =>
      OwnersRelease(w, x);
    case MoveAssignTo(x, from) =>
      OwnersMoveAssign(w, x, from);
    case Destruct(x) =>
      OwnersReset(w, x, NULL_REF);
  }

  /** The one deletion that an operation makes, if any, is of what one of the objects owned. */
  lemma NewDeletion(w: World, op: Operation)
    requires Allowed(w, op)
    ensures var w' := After(w, op);
            || w'.deletions == w.deletions
            || (&& op.x in w.scoped && w.scoped[op.x].ref != NULL_REF
                && w'.deletions == w.deletions + [Deletion(w.scoped[op.x].env, w.scoped[op.x].ref)]
                && (op.ResetTo? || op.Destruct? || (op.MoveAssignTo? && op.x != op.from)))
  {
  }

  /** An operation that deletes what an object owned leaves nobody owning it. */
  lemma DeletedIsNotOwned(w: World, op: Operation)
    requires Conserved(w) && Allowed(w, op) && After(w, op).deletions != w.deletions
    ensures op.x in w.scoped && !IsOwned(After(w, op), w.scoped[op.x].ref)
    ensures w.scoped[op.x].ref !in After(w, op).released
    ensures After(w, op).adoptedWith[w.scoped[op.x].ref] == w.scoped[op.x].env
  {
    hide DeletionsOk, NothingLost;
    NewDeletion(w, op);
  }

  /** What was deleted before is neither owned nor released by an operation. */
  lemma DeletedStaysDeleted(w: World, op: Operation, r: Ref)
    requires Conserved(w) && Allowed(w, op) && IsDeleted(w, r)
    ensures !IsOwned(After(w, op), r) && r !in After(w, op).released
    ensures r in w.adoptedWith && r in After(w, op).adoptedWith && After(w, op).adoptedWith[r] == w.adoptedWith[r]
  {
    assert !IsOwned(w, r) && r !in w.released && r in w.adoptedWith;
    hide OwnersOk, DeletionsOk, NothingLost;
  }

  lemma DeletionsAfter(w: World, op: Operation)
    requires Conserved(w) && Allowed(w, op)
    ensures DeletionsOk(After(w, op))
  {
    var w' := After(w, op);
    NewDeletion(w, op);
    if w'.deletions != w.deletions {
      DeletedIsNotOwned(w, op);
      assert IsOwned(w, w.scoped[op.x].ref);
    }
    forall k | 0 <= k < |w.deletions|
      ensures && w'.deletions[k] == w.deletions[k]
              && w.deletions[k].ref in w'.adoptedWith && w'.adoptedWith[w.deletions[k].ref] == w.deletions[k].env
              && w.deletions[k].ref !in w'.released && !IsOwned(w', w.deletions[k].ref)
    {
      DeletedStaysDeleted(w, op, w.deletions[k].ref);
    }
    hide After, OwnersOk, NothingLost, IsOwned;
  }

  lemma SafeAfter(w: World, op: Operation)
    requires Conserved(w) && Allowed(w, op)
    ensures OwnersOk(After(w, op)) && DeletionsOk(After(w, op))
  {
    OwnersAfter(w, op);
    DeletionsAfter(w, op);
  }

  /** A deletion once made stays on record. */
  lemma DeletedStays(w: World, op: Operation, r: Ref)
    requires Allowed(w, op) && IsDeleted(w, r)
    ensures IsDeleted(After(w, op), r)
  {
    var k :| 0 <= k < |w.deletions| && w.deletions[k].ref == r;
    assert After(w, op).deletions[k] == w.deletions[k];
  }

  /** The owner of a reference keeps it, hands it on, or deletes it. */
  lemma OwnedGoesSomewhere(w: World, op: Operation, x: Variable)
    requires Conserved(w) && Allowed(w, op) && x in w.scoped && w.scoped[x].ref != NULL_REF
    ensures var w', r := After(w, op), w.scoped[x].ref;
            IsOwned(w', r) || r in w'.released || IsDeleted(w', r)
  {
    var w', r := After(w, op), w.scoped[x].ref;
    if |w'.deletions| > |w.deletions| && w'.deletions[|w.deletions|].ref == r {
      assert IsDeleted(w', r);
    } else {
      match op
      case MoveConstruct(y, from) => assert w'.scoped[if from == x then y else x].ref == r;
      case MoveAssignTo(y, from) => assert w'.scoped[if from == x then y else x].ref == r;
      case ReleaseOf(y) => assert y != x ==> w'.scoped[x].ref == r;
      case Construct(_, _, _) => assert w'.scoped[x].ref == r;
      case ResetTo(_, _) => assert w'.scoped[x].ref == r;
      case Destruct(_) => assert w'.scoped[x].ref == r;
    }
  }

  lemma NothingLostAfter(w: World, op: Operation)
    requires Conserved(w) && Allowed(w, op)
    ensures NothingLost(After(w, op))
  {
    var w' := After(w, op);
    forall r | r in w'.adoptedWith ensures IsOwned(w', r) || r in w'.released || IsDeleted(w', r) {
      if IsDeleted(w, r) {
        DeletedStays(w, op, r);
      } else if IsOwned(w, r) {
        var x :| x in w.scoped && w.scoped[x].ref == r;
        SafeAfter(w, op);
        OwnedGoesSomewhere(w, op, x);
      } else if op.Construct? && op.ref == r {
        assert w'.scoped[op.x].ref == r;
      } else if op.ResetTo? && op.ref == r {
        assert w'.scoped[op.x].ref == r;
      }
    }
  }

  /** Conservation over every history of construction, moves, resets, releases and destruction. */
  lemma {:induction false} ConservedInHistories(worlds: seq<World>, ops: seq<Operation>, i: nat)
    requires IsHistory(worlds, ops) && i < |worlds|
    ensures Conserved(worlds[i])
  {
    if i > 0 {
      ConservedInHistories(worlds, ops, i - 1);
      SafeAfter(worlds[i - 1], ops[i - 1]);
      NothingLostAfter(worlds[i - 1], ops[i - 1]);
    }
  }

  /** The same for one reference: it is owned, released or deleted, and only one of these. */
  lemma EachInOnePlace(worlds: seq<World>, ops: seq<Operation>, i: nat, r: Ref)
    requires IsHistory(worlds, ops) && i < |worlds| && r in worlds[i].adoptedWith
    ensures var w := worlds[i];
            var owned := exists x | x in w.scoped :: w.scoped[x].ref == r;
            var deleted := exists k | 0 <= k < |w.deletions| :: w.deletions[k].ref == r;
            && (owned || deleted || r in w.released)
            && !(owned && deleted) && !(owned && r in w.released) && !(deleted && r in w.released)
    ensures var w := worlds[i];
            forall k | 0 <= k < |w.deletions| && w.deletions[k].ref == r ::
              && w.deletions[k].env == w.adoptedWith[r]
              && forall j | 0 <= j < |w.deletions| && j != k :: w.deletions[j].ref != r
    ensures var w := worlds[i];
            forall x, y | x in w.scoped && y in w.scoped && w.scoped[x].ref == r == w.scoped[y].ref :: x == y
  {
    ConservedInHistories(worlds, ops, i);
    assert IsOwned(worlds[i], r) || r in worlds[i].released || IsDeleted(worlds[i], r);
    if exists k | 0 <= k < |worlds[i].deletions| :: worlds[i].deletions[k].ref == r {
      assert IsDeleted(worlds[i], r) && !IsOwned(worlds[i], r);
    }
  }

  /** Histories begin with nothing and go on with any operation on objects that are there. */
  lemma HistoriesGoOn(worlds: seq<World>, ops: seq<Operation>, op: Operation)
    ensures IsHistory([World(map[], {}, [], map[])], [])
    ensures IsHistory(worlds, ops) && Allowed(worlds[|ops|], op) ==>
              IsHistory(worlds + [After(worlds[|ops|], op)], ops + [op])
    ensures IsHistory(worlds, ops) ==> (Allowed(worlds[|ops|], op) <==>
              var w := worlds[|ops|];
              match op
              case Construct(x, _, r) => x !in w.scoped && (r == 0 || r !in w.adoptedWith || r in w.released)
              case MoveConstruct(x, from) => x !in w.scoped && from in w.scoped
              case ResetTo(x, r) =>
                x in w.scoped && (r == w.scoped[x].ref || r == 0 || r !in w.adoptedWith || r in w.released)
              case ReleaseOf(x) => x in w.scoped
              case MoveAssignTo(x, from) => x in w.scoped && from in w.scoped
              case Destruct(x) => x in w.scoped)
  {
    hide After;
  }

  /** Once all objects are destroyed, every reference was released or deleted exactly once. */
  lemma NothingLeaks(worlds: seq<World>, ops: seq<Operation>, i: nat, r: Ref)
    requires IsHistory(worlds, ops) && i < |worlds| && worlds[i].scoped == map[] && r in worlds[i].adoptedWith
    ensures r in worlds[i].released <==> !IsDeleted(worlds[i], r)
    ensures forall j, k | 0 <= j < |worlds[i].deletions| && 0 <= k < |worlds[i].deletions| ::
              worlds[i].deletions[j].ref == r == worlds[i].deletions[k].ref ==> j == k
    ensures forall k | 0 <= k < |worlds[i].deletions| ::
              worlds[i].deletions[k].ref == r ==> worlds[i].deletions[k].env == worlds[i].adoptedWith[r]
  {
    ConservedInHistories(worlds, ops, i);
  }

  /** Assigning an object to itself is harmless. */
  lemma SelfMoveChangesNothing(w: World, x: Variable)
    requires x in w.scoped
    ensures After(w, MoveAssignTo(x, x)) == w
  {
    var released := AfterRelease(w, x);
    assert DeletedByReset(NULL_REF, w.scoped[x].ref) == [];
    assert AfterReset(released, x, w.scoped[x].ref).deletions == w.deletions;
    assert After(w, MoveAssignTo(x, x)).scoped == w.scoped;
  }
}
