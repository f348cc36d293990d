/**
 C++ function types, the check that one is usable as a native method of a given kind, and its
 conversion to a list of type traits.
 */
module FunctionTypes {
  import opened Wrappers
  import opened ConstexprContainers
  import opened TypeTraits

  /**
   R(Args...).  C++ drops top-level const and volatile from parameters but keeps them on the
   return type, so only the return type carries a flag for them.
   */
  datatype FunctionType = FunctionType(args: seq<CType>, ret: CType, cvReturn: bool)

  /** C++ has no parameters of type void. */
  type CppFunctionType = f: FunctionType | Void !in f.args witness FunctionType([], Void, false)

  /** The kinds of native methods; for any other kind the parameter count check asserts. */
  type MethodKind = k: NativeKind | k in {NormalNative, FastNative, CriticalNative} witness NormalNative

  function ConvertPositionToAllowed(position: nat): Position {
    match position
    case 0 => ZerothPosition
    case 1 => FirstOrLaterPosition
    case _ => SecondOrLaterPosition
  }

  predicate IsValidJniParameterPosition(kind: MethodKind, position: Position, expected: Position)
    requires expected != NotAnyPosition
  {
    if kind == CriticalNative then true
    else if expected == ReturnPosition then position == ReturnPosition
    else if position == ZerothPosition && expected != ZerothPosition then false
    else if position == FirstOrLaterPosition && expected != FirstOrLaterPosition then false
    else if (position == SecondOrLaterPosition || position == ReturnPosition)
            && expected != FirstOrLaterPosition && expected != SecondOrLaterPosition then false
    else true
  }

  /** IsValidJniParameter, after remove_cv has been applied to the type. */
  predicate IsValidJniParameter(t: CType, kind: MethodKind, position: Position) {
    var expected := NativeKindOf(t);
    if expected == NotJniKind then false
    else if !IsValidJniParameterPosition(kind, position, PositionAllowedOf(t)) then false
    else if expected == NormalJniCallingConventionParameter then kind != CriticalNative
    else if expected == CriticalNative then true
    else kind != CriticalNative
  }

  predicate IsJniParameterCountValid(kind: MethodKind, count: nat) {
    kind == CriticalNative || count >= 2
  }

  predicate IsValidJniArgumentTypes(kind: MethodKind, position: nat, args: seq<CType>)
    decreases |args|
  {
    args == []
    || (&& IsValidJniParameter(args[0], kind, ConvertPositionToAllowed(position))
        && IsValidJniArgumentTypes(kind, position + 1, args[1..]))
  }

  predicate IsValidJniFunctionType(kind: MethodKind, f: CppFunctionType) {
    && IsJniParameterCountValid(kind, |f.args|)
    && IsValidJniParameter(f.ret, kind, ReturnPosition)
    && IsValidJniArgumentTypes(kind, 0, f.args)
  }

  // --------------------------------------------------------------------- what validity means

  /** A type that may stand for a Java type. */
  predicate IsJavaType(t: CType) {
    IsPrimitive(t) || IsReference(t)
  }

  /** The two documented forms: R(JNIEnv*, jobject|jclass, Args...), and R(Args...) without references. */
  ghost predicate HasDocumentedForm(kind: MethodKind, f: CppFunctionType) {
    if kind == CriticalNative then
      && (f.ret == Void || IsPrimitive(f.ret))
      && forall i | 0 <= i < |f.args| :: IsPrimitive(f.args[i])
    else
      && (f.ret == Void || IsJavaType(f.ret))
      && |f.args| >= 2
      && f.args[0] == JniEnvPtr
      && f.args[1] in {Jobject, Jclass}
      && forall i | 2 <= i < |f.args| :: IsJavaType(f.args[i])
  }

  /** One parameter is valid exactly when the documented form allows its type in its place. */
  lemma ValidParameterIff(t: CType, kind: MethodKind, position: nat)
    requires t != Void
    ensures IsValidJniParameter(t, kind, ConvertPositionToAllowed(position)) <==>
              if kind == CriticalNative then IsPrimitive(t)
              else if position == 0 then t == JniEnvPtr
              else if position == 1 then t == Jobject || t == Jclass
              else IsPrimitive(t) || IsReference(t)
  {
  }

  lemma ValidReturnIff(t: CType, kind: MethodKind)
    ensures IsValidJniParameter(t, kind, ReturnPosition) <==>
              t == Void || IsPrimitive(t) || (kind != CriticalNative && IsReference(t))
  {
  }

  lemma {:induction false} ValidArgumentsIff(kind: MethodKind, position: nat, args: seq<CType>)
    ensures IsValidJniArgumentTypes(kind, position, args) <==>
              forall i | 0 <= i < |args| ::
                IsValidJniParameter(args[i], kind, ConvertPositionToAllowed(position + i))
    decreases |args|
  {
    if args != [] {
      ValidArgumentsIff(kind, position + 1, args[1..]);
      assert forall i | 1 <= i < |args| :: args[i] == args[1..][i - 1];
    }
  }

  /** The template recursion accepts exactly the function types of the documented forms. */
  lemma ValidIffDocumentedForm(kind: MethodKind, f: CppFunctionType)
    ensures IsValidJniFunctionType(kind, f) <==> HasDocumentedForm(kind, f)
    ensures HasDocumentedForm(kind, f) <==>
              if kind == CriticalNative then
                && (f.ret == Void || IsPrimitive(f.ret))
                && forall i | 0 <= i < |f.args| :: IsPrimitive(f.args[i])
              else
                && (f.ret == Void || IsPrimitive(f.ret) || IsReference(f.ret))
                && |f.args| >= 2 && f.args[0] == JniEnvPtr && (f.args[1] == Jobject || f.args[1] == Jclass)
                && forall i | 2 <= i < |f.args| :: IsPrimitive(f.args[i]) || IsReference(f.args[i])
  {
    ValidArgumentsIff(kind, 0, f.args);
    ValidReturnIff(f.ret, kind);
    forall i | 0 <= i < |f.args|
      ensures IsValidJniParameter(f.args[i], kind, ConvertPositionToAllowed(0 + i)) <==>
                if kind == CriticalNative then IsPrimitive(f.args[i])
                else if i == 0 then f.args[i] == JniEnvPtr
                else if i == 1 then f.args[i] in {Jobject, Jclass}
                else IsJavaType(f.args[i])
    {
      assert f.args[i] in f.args;
      ValidParameterIff(f.args[i], kind, i);
    }
  }

  // ------------------------------------------------------------------------- reified signature

  /** Parameters that are no part of the descriptor: `JNIEnv*` and the receiver. */
  function SkipArgumentPrefix(kind: MethodKind): nat {
    if kind != CriticalNative then 2 else 0
  }

  /** The parameters that the descriptor lists. */
  function JavaArgs(kind: MethodKind, f: FunctionType): seq<CType> {
    if SkipArgumentPrefix(kind) <= |f.args| then f.args[SkipArgumentPrefix(kind)..] else []
  }

  /** Critical natives list all parameters, others all but the first two. */
  lemma JavaArgsForm(kind: MethodKind, f: FunctionType)
    ensures kind == CriticalNative ==> JavaArgs(kind, f) == f.args
    ensures kind != CriticalNative && |f.args| >= 2 ==> JavaArgs(kind, f) == f.args[2..]
  {
  }

  function Traits(types: seq<CType>): (traits: seq<ReifiedJniTypeTrait>)
    ensures |traits| == |types|
    ensures forall i | 0 <= i < |types| :: traits[i] == Reify(types[i])
  {
    seq(|types|, i requires 0 <= i < |types| => Reify(types[i]))
  }

  lemma TraitsAppend(types: seq<CType>, t: CType)
    ensures Traits(types + [t]) == Traits(types) + [Reify(t)]
  {
  }

  lemma SliceGrows(types: seq<CType>, from: nat, to: nat)
    requires from <= to < |types|
    ensures types[from..to + 1] == types[from..to] + [types[to]]
  {
  }

  /** Every component of a valid function type has a row in the table. */
  lemma ValidComponentsHaveTraits(kind: MethodKind, f: CppFunctionType)
    requires IsValidJniFunctionType(kind, f)
    ensures SkipArgumentPrefix(kind) <= |f.args|
    ensures f.ret != NotJni && NotJni !in f.args
  {
    ValidIffDocumentedForm(kind, f);
  }

  lemma OnlyNotJniLacksTrait(t: CType)
    ensures NativeKindOf(t) == NotJniKind <==> t == NotJni
  {
  }

  /** ReifyJniTypeMetafunction; its assertion is the precondition. */
  function ReifyComponent(t: CType): ReifiedJniTypeTrait
    requires NativeKindOf(t) != NotJniKind
  {
    Reify(t)
  }

  /** A cv-qualified type has no row of its own in the table: it gets the primary template. */
  function QualifiedType(t: CType, cv: bool): CType {
    if cv then NotJni else t
  }

  datatype ReifiedJniSignature =
    ReifiedJniSignature(args: ConstexprVector<ReifiedJniTypeTrait>, ret: ReifiedJniTypeTrait)

  /**
   Valid function types are reified; the assertion in the return type's metafunction stops the
   evaluation exactly for those whose return type is cv-qualified.  No other assertion, and not
   the vector's capacity of one more than the number of parameters, is ever violated.
   */
  method MaybeMakeReifiedJniSignature(kind: MethodKind, f: CppFunctionType)
    returns (res: Checked<Option<ReifiedJniSignature>>)
    ensures res.AssertionFailed? <==> IsValidJniFunctionType(kind, f) && f.cvReturn
    ensures res == Returned(None) <==> !IsValidJniFunctionType(kind, f)
    ensures res.Returned? && res.value.Some? ==>
              && fresh(res.value.value.args) && fresh(res.value.value.args.data)
              && res.value.value.args.Valid()
              && res.value.value.args.Elements() == Traits(JavaArgs(kind, f))
              && JavaArgs(kind, f) == (if kind == CriticalNative then f.args else f.args[2..])
              && res.value.value.ret == Reify(f.ret)
  {
    if !IsValidJniFunctionType(kind, f) {
      return Returned(None);
    }
    ValidComponentsHaveTraits(kind, f);
    var ret := QualifiedType(f.ret, f.cvReturn);
    OnlyNotJniLacksTrait(ret);
    if NativeKindOf(ret) == NotJniKind {
      return AssertionFailed;
    }
    var args := ReifyArguments(kind, f);
    return Returned(Some(ReifiedJniSignature(args, ReifyComponent(ret))));
  }

  /** Pushes the traits of the parameters behind the prefix, in order. */
  method ReifyArguments(kind: MethodKind, f: CppFunctionType)
    returns (args: ConstexprVector<ReifiedJniTypeTrait>)
    requires SkipArgumentPrefix(kind) <= |f.args| && NotJni !in f.args
    ensures fresh(args) && fresh(args.data) && args.Valid()
    ensures args.Elements() == Traits(JavaArgs(kind, f))
  {
    hide TypeDescriptorOf, TypeNameOf, Reify, NativeKindOf, Traits, SkipArgumentPrefix;
    var skip := SkipArgumentPrefix(kind);
    args := new ConstexprVector<ReifiedJniTypeTrait>(|f.args| + 1);
    var index := 0;
    ghost var pushed: seq<CType> := [];
    assert args.Elements() == Traits(pushed);
    while index < |f.args|
      invariant index <= |f.args|
      invariant fresh(args) && fresh(args.data) && args.Valid() && args.data.Length == |f.args| + 1
      invariant pushed == if index < skip then [] else f.args[skip..index]
      invariant args.Elements() == Traits(pushed)
    {
      assert f.args[index] in f.args;
      OnlyNotJniLacksTrait(f.args[index]);
      var reified := ReifyComponent(f.args[index]);
      if index >= skip {
        TraitsAppend(pushed, f.args[index]);
        SliceGrows(f.args, skip, index);
        args.PushBack(reified);
        pushed := pushed + [f.args[index]];
      }
      index := index + 1;
    }
    assert f.args[skip..index] == f.args[skip..];
  }

  // ------------------------------------------------------------------------ calling conventions

  /** The normal native method with the same Java parameters as a critical one. */
  function WithReceiver(f: FunctionType, receiver: CType): FunctionType {
    f.(args := [JniEnvPtr, receiver] + f.args)
  }

  /** A reference-free normal method and a critical method differ in the receiver only. */
  lemma CriticalIffPrimitiveNormal(f: CppFunctionType, receiver: CType)
    requires receiver in {Jobject, Jclass}
    ensures IsValidJniFunctionType(CriticalNative, f) <==>
              && IsValidJniFunctionType(NormalNative, WithReceiver(f, receiver))
              && (f.ret == Void || IsPrimitive(f.ret))
              && forall i | 0 <= i < |f.args| :: IsPrimitive(f.args[i])
    ensures WithReceiver(f, receiver) == FunctionType([JniEnvPtr, receiver] + f.args, f.ret, f.cvReturn)
    ensures JavaArgs(CriticalNative, f) == JavaArgs(NormalNative, WithReceiver(f, receiver)) == f.args
  {
    var g := WithReceiver(f, receiver);
    ValidIffDocumentedForm(CriticalNative, f);
    ValidIffDocumentedForm(NormalNative, g);
    assert g.args[2..] == f.args;
    assert forall i | 0 <= i < |f.args| :: g.args[i + 2] == f.args[i];
  }

  /** No function type can be registered both as critical and as normal. */
  lemma CriticalAndNormalDisjoint(f: CppFunctionType)
    ensures !(IsValidJniFunctionType(CriticalNative, f) && IsValidJniFunctionType(NormalNative, f))
  {
    ValidIffDocumentedForm(CriticalNative, f);
    ValidIffDocumentedForm(NormalNative, f);
  }

  lemma FastIffNormal(f: CppFunctionType)
    ensures IsValidJniFunctionType(FastNative, f) <==> IsValidJniFunctionType(NormalNative, f)
    ensures JavaArgs(FastNative, f) == JavaArgs(NormalNative, f)
  {
    ValidIffDocumentedForm(FastNative, f);
    ValidIffDocumentedForm(NormalNative, f);
  }
}
