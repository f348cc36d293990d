/** Building a Java string array from the strings that a visitor yields. */
module ToStringArray {
  import opened Wrappers
  import opened LocalRefs

  /** The strings that the visitor yields for the first `count` indices. */
  function Visited(count: nat, visitor: nat -> Option<string>): (s: seq<Option<string>>)
    ensures |s| == count
    ensures forall i | 0 <= i < count :: s[i] == visitor(i)
  {
    seq(count, (i: nat) => visitor(i))
  }

  /** The environment when a call of toStringArray begins. */
  datatype Entry = Entry(locals: set<Ref>, arrays: map<Ref, seq<Option<string>>>, peak: nat)

  ghost function EntryOf(env: JniEnv): Entry
    reads env
  {
    Entry(env.locals, env.arrays, env.peak)
  }

  /**
   What toStringArray guarantees; `made` is the array that the call made, or null if it could not
   make one, and the only new local reference in either case.  On success it is the result and
   holds the visitor's strings.  On failure the result is null, an exception is pending, and the
   array is left behind with the first few strings.  Other arrays are as before, and at no time
   are there more than two references beyond those at entry.
   */
  ghost predicate Delivers(env: JniEnv, entry: Entry, result: Ref, made: Ref, strings: seq<Option<string>>)
    reads env
  {
    && env.pending == (result == NULL_REF)
    && (result != NULL_REF ==> result == made && env.arrays == entry.arrays[made := strings])
    && (made != NULL_REF ==> made !in entry.locals && made !in entry.arrays)
    && env.locals == entry.locals + Elements(Owned(made))
    && (made == NULL_REF ==> env.arrays == entry.arrays)
    && (made != NULL_REF && result == NULL_REF ==>
          exists k: nat :: k < |strings| && env.arrays == entry.arrays[made := FirstOf(strings, k)])
    && env.peak <= (if entry.peak < |entry.locals| + 2 then |entry.locals| + 2 else entry.peak)
  }

  /** What Delivers says of the outcomes, one by one; k strings are in place on failure. */
  lemma DeliversForms(env: JniEnv, entry: Entry, result: Ref, made: Ref, strings: seq<Option<string>>)
    returns (k: nat)
    requires Delivers(env, entry, result, made, strings)
    ensures env.pending <==> result == 0
    ensures result != 0 ==>
              && result in env.arrays && env.arrays[result] == strings
              && env.locals == entry.locals + {result} && result !in entry.locals
    ensures result == 0 && made == 0 ==> env.locals == entry.locals && env.arrays == entry.arrays
    ensures result == 0 && made != 0 ==>
              && env.locals == entry.locals + {made} && made !in entry.locals
              && made in env.arrays && |env.arrays[made]| == |strings| && k < |strings|
              && forall i | 0 <= i < |strings| :: env.arrays[made][i] == if i < k then strings[i] else None
    ensures forall a | a in entry.arrays :: a in env.arrays && env.arrays[a] == entry.arrays[a]
    ensures env.peak <= entry.peak || env.peak <= |entry.locals| + 2
  {
    LeavesEntry(entry.locals, made);
    k := 0;
    if result == NULL_REF && made != NULL_REF {
      k :| k < |strings| && env.arrays == entry.arrays[made := FirstOf(strings, k)];
    }
  }

  lemma EntryForms(env: JniEnv)
    ensures EntryOf(env).locals == env.locals && EntryOf(env).arrays == env.arrays && EntryOf(env).peak == env.peak
  {
  }

  /** The first k strings, and nulls up to the full length. */
  function FirstOf(strings: seq<Option<string>>, k: nat): (s: seq<Option<string>>)
    requires k <= |strings|
    ensures |s| == |strings|
    ensures forall i | 0 <= i < |strings| :: s[i] == if i < k then strings[i] else None
  {
    strings[..k] + seq(|strings| - k, _ => None)
  }

  /** One iteration: makes the string, stores it, and lets the scoped reference go again. */
  method AddString(env: JniEnv, array_: Ref, i: nat, chars: Option<string>) returns (ok: bool)
    requires env.Valid() && !env.pending
    requires array_ in env.locals && array_ in env.arrays && i < |env.arrays[array_]|
    modifies env
    ensures env.Valid() && ok == !env.pending
    ensures env.locals == old(env.locals)
    ensures env.arrays == if ok then old(env.arrays)[array_ := old(env.arrays)[array_][i := chars]] else old(env.arrays)
    ensures env.peak <= (if old(env.peak) < |old(env.locals)| + 1 then |old(env.locals)| + 1 else old(env.peak))
  {
    hide Owned, Elements;
    ghost var entry := env.locals;
    var utf := env.NewStringUTF(chars);
    LeavesEntry(entry, utf);
    var s := new ScopedLocalRef(env, utf);
    var raised := env.ExceptionCheck();
    if raised {
      s.Destroy();
      return false;
    }
    env.SetObjectArrayElement(array_, i, s.mLocalRef);
    raised := env.ExceptionCheck();
    if raised {
      s.Destroy();
      return false;
    }
    s.Destroy();
    return true;
  }

  /** Deleting what was added leaves the references at entry. */
  lemma LeavesEntry(entry: set<Ref>, r: Ref)
    ensures r == NULL_REF ==> Elements(Owned(r)) == {} && entry - Elements(Owned(r)) == entry
    ensures r != NULL_REF ==> Elements(Owned(r)) == {r}
    ensures r != NULL_REF && r !in entry ==> (entry + {r}) - {r} == entry
  {
  }

  method ToStringArray(env: JniEnv, count: nat, visitor: nat -> Option<string>)
    returns (result: Ref, ghost made: Ref)
    requires env.Valid() && !env.pending
    modifies env
    ensures env.Valid()
    ensures Delivers(env, old(EntryOf(env)), result, made, Visited(count, visitor))
  {
    hide FirstOf, Visited, Elements, Owned, JniEnv.Valid, Delivers, Filled;
    ghost var entry := EntryOf(env);
    ghost var strings := Visited(count, visitor);
    var array_ := env.NewObjectArray(count);
    made := array_;
    if array_ == NULL_REF {
      NothingMade(env, entry, strings);
      return NULL_REF, made;
    }
    NothingFilled(env, entry, made, strings);
    var i := 0;
    while i < count
      invariant i <= count
      invariant env.Valid() && !env.pending && made == array_
      invariant Filled(env, entry, made, strings, i)
    {
      var ok := AddNext(env, entry, array_, strings, i, visitor(i));
      if !ok {
        FilledDelivers(env, entry, made, strings, i);
        return NULL_REF, made;
      }
      i := i + 1;
    }
    FilledDelivers(env, entry, made, strings, i);
    return array_, made;
  }

  /** The array has been made, and its first k strings are in place. */
  ghost predicate Filled(env: JniEnv, entry: Entry, made: Ref, strings: seq<Option<string>>, k: nat)
    requires k <= |strings|
    reads env
  {
    && made != NULL_REF && made !in entry.locals && made !in entry.arrays
    && env.locals == entry.locals + {made}
    && env.arrays == entry.arrays[made := FirstOf(strings, k)]
    && env.peak <= (if entry.peak < |entry.locals| + 2 then |entry.locals| + 2 else entry.peak)
  }

  lemma NothingMade(env: JniEnv, entry: Entry, strings: seq<Option<string>>)
    requires env.pending && entry == EntryOf(env)
    ensures Delivers(env, entry, NULL_REF, NULL_REF, strings)
  {
  }

  lemma NothingFilled(env: JniEnv, entry: Entry, made: Ref, strings: seq<Option<string>>)
    requires made != NULL_REF && made !in entry.locals && made !in entry.arrays
    requires env.locals == entry.locals + {made} && env.arrays == entry.arrays[made := seq(|strings|, _ => None)]
    requires env.peak <= (if entry.peak < |entry.locals| + 1 then |entry.locals| + 1 else entry.peak)
    ensures Filled(env, entry, made, strings, 0)
  {
    assert FirstOf(strings, 0) == seq(|strings|, _ => None);
  }

  lemma FilledDelivers(env: JniEnv, entry: Entry, made: Ref, strings: seq<Option<string>>, k: nat)
    requires k <= |strings| && Filled(env, entry, made, strings, k)
    requires env.pending <==> k < |strings|
    ensures Delivers(env, entry, if env.pending then NULL_REF else made, made, strings)
  {
    LeavesEntry(entry.locals, made);
    if k == |strings| {
      assert FirstOf(strings, k) == strings;
    }
  }

  /** One iteration, in terms of the whole array. */
  method AddNext(env: JniEnv, ghost entry: Entry, array_: Ref, ghost strings: seq<Option<string>>, i: nat,
                 chars: Option<string>)
    returns (ok: bool)
    requires env.Valid() && !env.pending && i < |strings| && chars == strings[i]
    requires Filled(env, entry, array_, strings, i)
    modifies env
    ensures env.Valid() && ok == !env.pending
    ensures Filled(env, entry, array_, strings, if ok then i + 1 else i)
  {
    hide FirstOf, JniEnv.Valid;
    assert |env.locals| == |entry.locals| + 1;
    NextOf(strings, i);
    ok := AddString(env, array_, i, chars);
  }

  lemma NextOf(strings: seq<Option<string>>, k: nat)
    requires k < |strings|
    ensures FirstOf(strings, k)[k := strings[k]] == FirstOf(strings, k + 1)
  {
  }

  /** The overload for a vector of strings. */
  method VectorToStringArray(env: JniEnv, strings: seq<string>) returns (result: Ref, ghost made: Ref)
    requires env.Valid() && !env.pending
    modifies env
    ensures env.Valid()
    ensures Delivers(env, old(EntryOf(env)), result, made, AsOptions(strings))
  {
    result, made := ToStringArray(env, |strings|, (i: nat) => if i < |strings| then Some(strings[i]) else None);
    assert Visited(|strings|, (i: nat) => if i < |strings| then Some(strings[i]) else None) == AsOptions(strings);
  }

  function AsOptions(strings: seq<string>): (s: seq<Option<string>>)
    ensures |s| == |strings|
    ensures forall i | 0 <= i < |strings| :: s[i] == Some(strings[i])
  {
    seq(|strings|, i requires 0 <= i < |strings| => Some(strings[i]))
  }

  /** The overload for a null-terminated list delivers what the one for vectors does on the same strings. */
  method NullTerminatedToStringArray(env: JniEnv, list: array<Option<string>>, ghost strings: seq<string>)
    returns (result: Ref, ghost made: Ref)
    requires env.Valid() && !env.pending
    requires |strings| < list.Length && list[|strings|] == None
    requires forall i | 0 <= i < |strings| :: list[i] == Some(strings[i])
    modifies env
    ensures env.Valid()
    ensures Delivers(env, old(EntryOf(env)), result, made, AsOptions(strings))
  {
    var count := 0;
    while list[count] != None
      invariant count <= |strings|
      decreases |strings| - count
    {
      assert list[..][count] == list[count];
      assert count < |strings|;
      count := count + 1;
    }
    var copy := list[..count];
    assert copy == AsOptions(strings);
    result, made := ToStringArray(env, count, (i: nat) => if i < |copy| then copy[i] else None);
    assert Visited(count, (i: nat) => if i < |copy| then copy[i] else None) == AsOptions(strings);
  }
}
