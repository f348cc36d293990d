/** Inferring the method descriptor of a C++ function type, and how it relates to matching. */
module Inference {
  import opened Wrappers
  import opened ConstexprContainers
  import opened Grammar
  import opened Parser
  import opened TypeTraits
  import opened FunctionTypes
  import opened Matcher

  // --------------------------------------------------------------------------- specification

  function Descriptors(types: seq<CType>): (ds: seq<string>)
    ensures |ds| == |types|
    ensures forall i | 0 <= i < |types| :: ds[i] == TypeDescriptorOf(types[i])
  {
    seq(|types|, i requires 0 <= i < |types| => TypeDescriptorOf(types[i]))
  }

  /** Canonical descriptors for the parameters and the result. */
  function CanonicalSignature(kind: MethodKind, f: FunctionType): Signature {
    Signature(Descriptors(JavaArgs(kind, f)), TypeDescriptorOf(f.ret))
  }

  predicate AllFinal(kind: MethodKind, f: FunctionType) {
    IsFinal(f.ret) && forall i | 0 <= i < |JavaArgs(kind, f)| :: IsFinal(JavaArgs(kind, f)[i])
  }

  /** The result of inference. */
  function InferenceResult(kind: MethodKind, f: CppFunctionType): Checked<Option<Signature>> {
    if !IsValidJniFunctionType(kind, f) then Returned(None)
    else if f.cvReturn then AssertionFailed
    else if AllFinal(kind, f) then Returned(Some(CanonicalSignature(kind, f)))
    else Returned(None)
  }

  /**
   The result of inference for every function type.  An assertion stops it exactly for valid types
   with a cv-qualified return type; nothing is inferred for invalid types, and canonical
   descriptors for others.
   */
  lemma InferenceResultIff(kind: MethodKind, f: CppFunctionType)
    ensures InferenceResult(kind, f).AssertionFailed? <==> IsValidJniFunctionType(kind, f) && f.cvReturn
    ensures !IsValidJniFunctionType(kind, f) ==> InferenceResult(kind, f) == Returned(None)
    ensures InferenceResult(kind, f).Returned? && InferenceResult(kind, f).value.Some? ==>
              var sig, types := InferenceResult(kind, f).value.value, JavaArgs(kind, f);
              && |sig.args| == |types| && sig.ret == TypeDescriptorOf(f.ret)
              && forall i | 0 <= i < |types| :: sig.args[i] == TypeDescriptorOf(types[i])
  {
    hide TypeDescriptorOf, IsFinal, IsValidJniFunctionType, JavaArgs;
  }

  /** Nothing is inferred for a valid type exactly when some component stands for several descriptors. */
  lemma NothingInferredIff(kind: MethodKind, f: CppFunctionType)
    requires IsValidJniFunctionType(kind, f) && !f.cvReturn
    ensures InferenceResult(kind, f) == Returned(None) <==>
              || f.ret in {Jobject, Jthrowable, Jarray, JobjectArray}
              || exists i | 0 <= i < |JavaArgs(kind, f)| :: JavaArgs(kind, f)[i] in {Jobject, Jthrowable, Jarray, JobjectArray}
  {
    var types := JavaArgs(kind, f);
    JavaComponentsOfValid(kind, f);
    KindsOfTypes(f.ret);
    forall i | 0 <= i < |types|
      ensures IsFinal(types[i]) <==> types[i] !in {Jobject, Jthrowable, Jarray, JobjectArray}
    {
      assert types[i] in types;
      KindsOfTypes(types[i]);
    }
    hide TypeDescriptorOf, IsFinal, IsValidJniFunctionType, JavaArgs;
  }

  // ------------------------------------------------------------------------------ the methods

  lemma DescriptorsAppend(types: seq<CType>, t: CType)
    ensures Descriptors(types + [t]) == Descriptors(types) + [TypeDescriptorOf(t)]
  {
  }

  lemma JavaComponentsOfValid(kind: MethodKind, f: CppFunctionType)
    requires IsValidJniFunctionType(kind, f)
    ensures f.ret !in {JniEnvPtr, NotJni}
    ensures forall t | t in JavaArgs(kind, f) :: t !in {Void, JniEnvPtr, NotJni}
  {
    ValidIffDocumentedForm(kind, f);
    forall t | t in JavaArgs(kind, f) ensures IsJavaType(t) {
      var i :| 0 <= i < |JavaArgs(kind, f)| && JavaArgs(kind, f)[i] == t;
      assert f.args[SkipArgumentPrefix(kind) + i] == t;
    }
  }

  lemma PrefixGrows(types: seq<CType>, i: nat)
    requires i < |types|
    ensures types[..i + 1] == types[..i] + [types[i]]
  {
  }

  lemma NonEmptyDescriptor(types: seq<CType>, i: nat)
    requires i < |types| && forall t | t in types :: t !in {Void, JniEnvPtr, NotJni}
    ensures TypeDescriptorOf(types[i]) != ""
  {
    hide TypeDescriptorOf;
    assert types[i] in types;
    DescriptorStart(types[i]);
  }

  /** The loop of FromFunctionType over the reified parameters. */
  method FinalDescriptors(traits: ConstexprVector<ReifiedJniTypeTrait>, ghost types: seq<CType>, kMaxSize: nat)
    returns (res: Option<ConstexprVector<JniDescriptorNode>>)
    requires traits.Valid() && traits.Elements() == Traits(types) && traits.size <= kMaxSize
    requires forall t | t in types :: t !in {Void, JniEnvPtr, NotJni}
    ensures res.Some? <==> forall i | 0 <= i < |types| :: IsFinal(types[i])
    ensures res.Some? ==>
              && fresh(res.value) && fresh(res.value.data) && res.value.Valid()
              && Texts(res.value.Elements()) == Descriptors(types)
  {
    hide TypeDescriptorOf, TypeNameOf, NativeKindOf, PositionAllowedOf, TypeFinalityOf;
    hide Traits, Descriptors, Texts, View.Chars;
    var args := new ConstexprVector<JniDescriptorNode>(kMaxSize);
    ghost var texts: seq<string> := [];
    var i := 0;
    while i < traits.size
      invariant i <= traits.size == |types|
      invariant fresh(args) && fresh(args.data) && args.Valid()
      invariant args.size == i && args.data.Length == kMaxSize
      invariant forall j | 0 <= j < i :: IsFinal(types[j])
      invariant texts == Texts(args.Elements()) == Descriptors(types[..i])
    {
      var argTrait := traits.At(i);
      assert argTrait == Traits(types)[i] == Reify(types[i]);
      if argTrait.typeFinality != Final {
        return None;
      }
      NonEmptyDescriptor(types, i);
      var node := OfLiteral(argTrait.typeDescriptor);
      TextsAppend(args.Elements(), node);
      DescriptorsAppend(types[..i], types[i]);
      PrefixGrows(types, i);
      args.PushBack(node);
      texts := texts + [node.Chars()];
      i := i + 1;
    }
    assert types[..i] == types;
    return Some(args);
  }

  method FromFunctionType(kind: MethodKind, f: CppFunctionType)
    returns (res: Checked<Option<JniSignatureDescriptor>>)
    ensures res.AssertionFailed? <==> InferenceResult(kind, f).AssertionFailed?
    ensures res.AssertionFailed? <==> IsValidJniFunctionType(kind, f) && f.cvReturn
    ensures !IsValidJniFunctionType(kind, f) ==> res == Returned(None)
    ensures res.Returned? ==> (res.value.Some? <==> InferenceResult(kind, f).value.Some?)
    ensures res.Returned? && res.value.Some? ==>
              && fresh(res.value.value.args) && fresh(res.value.value.args.data)
              && res.value.value.args.Valid()
              && InferenceResult(kind, f).value.value ==
                 Signature(Texts(res.value.value.args.Elements()), res.value.value.ret.Chars())
  {
    hide TypeDescriptorOf;
    hide TypeNameOf;
    InferenceResultIff(kind, f);
    var reified := MaybeMakeReifiedJniSignature(kind, f);
    if reified.AssertionFailed? {
      return AssertionFailed;
    }
    if reified.value.None? {
      return Returned(None);
    }
    var signature := reified.value.value;
    if signature.ret.typeFinality != Final {
      return Returned(None);
    }
    JavaComponentsOfValid(kind, f);
    DescriptorStart(f.ret);
    var ret := OfLiteral(signature.ret.typeDescriptor);
    var args := FinalDescriptors(signature.args, JavaArgs(kind, f), |f.args| + 1);
    if args.None? {
      return Returned(None);
    }
    return Returned(Some(JniSignatureDescriptor(args.value, ret)));
  }

  lemma {:induction false} ConcatPrefixLength(parts: seq<string>, j: nat)
    requires j < |parts|
    ensures Concat(parts[..j + 1]) == Concat(parts[..j]) + parts[j]
    ensures |Concat(parts[..j])| + |parts[j]| <= |Concat(parts)|
  {
    assert parts[..j + 1] == parts[..j] + [parts[j]];
    ConcatAppend(parts[..j], parts[j]);
    ConcatSplit(parts, j + 1);
  }

  lemma {:induction false} ConcatSplit(parts: seq<string>, j: nat)
    requires j <= |parts|
    ensures Concat(parts) == Concat(parts[..j]) + Concat(parts[j..])
  {
    if j == 0 {
      assert parts[0..] == parts;
    } else {
      ConcatSplit(parts[1..], j - 1);
      assert parts[..j][1..] == parts[1..][..j - 1];
      assert parts[j..] == parts[1..][j - 1..];
    }
  }

  /** The size of the string to come; 0 when there is none. */
  method CalculateStringSize(kind: MethodKind, f: CppFunctionType) returns (size: Checked<nat>)
    ensures size.AssertionFailed? <==> InferenceResult(kind, f).AssertionFailed?
    ensures size.AssertionFailed? <==> IsValidJniFunctionType(kind, f) && f.cvReturn
    ensures !IsValidJniFunctionType(kind, f) ==> size == Returned(0)
    ensures size.Returned? ==>
              size.value == match InferenceResult(kind, f).value
                            case None => 0
                            case Some(sig) => |sig.Print()|
  {
    InferenceResultIff(kind, f);
    var descriptor := FromFunctionType(kind, f);
    if descriptor.AssertionFailed? {
      return AssertionFailed;
    }
    if descriptor.value.None? {
      return Returned(0);
    }
    var acc := 1;
    var sum := SumSizes(descriptor.value.value.args);
    acc := acc + sum;
    acc := acc + 1;
    acc := acc + descriptor.value.value.ret.size;
    return Returned(acc);
  }

  /** The accumulating loop over the parameters. */
  method SumSizes(args: ConstexprVector<JniDescriptorNode>) returns (sum: nat)
    requires args.Valid()
    ensures sum == |Concat(Texts(args.Elements()))|
  {
    ghost var parts := Texts(args.Elements());
    sum := 0;
    var j := 0;
    while j < args.size
      invariant j <= args.size == |parts|
      invariant sum == |Concat(parts[..j])|
    {
      ConcatPrefixLength(parts, j);
      assert args.At(j).Chars() == parts[j];
      sum := sum + args.At(j).size;
      j := j + 1;
    }
    assert parts[..j] == parts;
  }

  /** Copies the characters of a view into the buffer from `pos` on. */
  method CopyInto(buffer: array<char>, pos: nat, longy: ConstexprStringView) returns (end: nat)
    requires pos + longy.size <= buffer.Length
    modifies buffer
    ensures end == pos + longy.size
    ensures buffer[..end] == old(buffer[..pos]) + longy.Chars()
  {
    end := pos;
    var i := 0;
    while i < longy.size
      invariant i <= longy.size && end == pos + i
      invariant buffer[..end] == old(buffer[..pos]) + longy.Chars()[..i]
    {
      buffer[end] := longy.At(i);
      end := end + 1;
      i := i + 1;
    }
    assert longy.Chars()[..i] == longy.Chars();
  }

  /** Appends every parameter's descriptor; `written` is what the buffer holds before. */
  method CopyArguments(buffer: array<char>, start: nat, args: ConstexprVector<JniDescriptorNode>)
    returns (pos: nat)
    requires args.Valid() && args.data as object != buffer
    requires start + |Concat(Texts(args.Elements()))| <= buffer.Length
    modifies buffer
    ensures pos == start + |Concat(Texts(args.Elements()))|
    ensures buffer[..pos] == old(buffer[..start]) + Concat(Texts(args.Elements()))
  {
    ghost var parts := Texts(args.Elements());
    pos := start;
    var j := 0;
    while j < args.size
      invariant j <= args.size == |parts| && parts == Texts(args.Elements())
      invariant pos == start + |Concat(parts[..j])| <= buffer.Length
      invariant buffer[..pos] == old(buffer[..start]) + Concat(parts[..j])
    {
      ConcatPrefixLength(parts, j);
      var node := args.At(j);
      assert node.Chars() == parts[j];
      pos := CopyInto(buffer, pos, node);
      j := j + 1;
    }
    assert parts[..j] == parts;
  }

  /**
   Writes the inferred string into a buffer of the calculated size plus one.  All writes stay
   inside, and the last one is exactly at the calculated size.
   */
  method GetString(kind: MethodKind, f: CppFunctionType) returns (res: Checked<array<char>>)
    ensures res.AssertionFailed? <==> IsValidJniFunctionType(kind, f) && f.cvReturn
    ensures !IsValidJniFunctionType(kind, f) ==> res.Returned? && res.value[..] == ['\0']
    ensures res.Returned? ==>
              && fresh(res.value)
              && InferenceResult(kind, f).Returned?
              && res.value[..] == match InferenceResult(kind, f).value
                                  case None => ['\0']
                                  case Some(sig) => "(" + Concat(sig.args) + ")" + sig.ret + ['\0']
  {
    InferenceResultIff(kind, f);
    var kMaxStringSize := CalculateStringSize(kind, f);
    if kMaxStringSize.AssertionFailed? {
      return AssertionFailed;
    }
    var buffer := new char[kMaxStringSize.value + 1](_ => '\0');
    var descriptor := FromFunctionType(kind, f);
    if descriptor.AssertionFailed? || descriptor.value.None? {
      buffer[0] := '\0';
      assert buffer[..] == ['\0'];
      return Returned(buffer);
    }
    SignatureForm(InferenceResult(kind, f).value.value);
    var pos := WriteSignature(buffer, descriptor.value.value);
    assert pos == kMaxStringSize.value;
    buffer[pos] := '\0';
    assert buffer[..] == buffer[..pos] + ['\0'];
    return Returned(buffer);
  }

  /** Writes the printed form of a descriptor to the front of the buffer. */
  method WriteSignature(buffer: array<char>, descriptor: JniSignatureDescriptor) returns (pos: nat)
    requires descriptor.args.Valid() && descriptor.args.data as object != buffer
    requires |Signature(Texts(descriptor.args.Elements()), descriptor.ret.Chars()).Print()| <= buffer.Length
    modifies buffer
    ensures var sig := Signature(Texts(old(descriptor.args.Elements())), descriptor.ret.Chars());
            pos == |sig.Print()| && buffer[..pos] == sig.Print()
  {
    ghost var parameters := Concat(Texts(descriptor.args.Elements()));
    buffer[0] := '(';
    pos := CopyArguments(buffer, 1, descriptor.args);
    buffer[pos] := ')';
    pos := pos + 1;
    assert buffer[..pos] == "(" + parameters + ")";
    pos := CopyInto(buffer, pos, descriptor.ret);
    assert buffer[..pos] == "(" + (parameters + ")" + descriptor.ret.Chars());
  }

  // ------------------------------------------------------------------ inference and matching

  lemma CanonicalWellFormed(kind: MethodKind, f: CppFunctionType)
    requires IsValidJniFunctionType(kind, f)
    ensures CanonicalSignature(kind, f).WellFormed()
  {
    JavaComponentsOfValid(kind, f);
    DescriptorInGrammar(f.ret);
    var types := JavaArgs(kind, f);
    forall i | 0 <= i < |types| ensures IsTypeDescriptor(Descriptors(types)[i]) {
      assert types[i] in types;
      DescriptorInGrammar(types[i]);
    }
  }

  /** A final type stands for its canonical descriptor and for no other. */
  lemma FinalAcceptsCanonicalOnly(t: CType, d: string)
    requires IsFinal(t) && t != JniEnvPtr
    ensures Accepts(t, d) <==> d == TypeDescriptorOf(t)
  {
  }

  lemma FinalDenotesCanonicalOnly(kind: MethodKind, f: CppFunctionType, sig: Signature)
    requires IsValidJniFunctionType(kind, f) && AllFinal(kind, f)
    ensures Denotes(kind, f, sig) <==> sig == CanonicalSignature(kind, f)
  {
    JavaComponentsOfValid(kind, f);
    CanonicalWellFormed(kind, f);
    var types := JavaArgs(kind, f);
    FinalAcceptsCanonicalOnly(f.ret, sig.ret);
    if |sig.args| == |types| {
      forall i | 0 <= i < |types|
        ensures Accepts(types[i], sig.args[i]) <==> sig.args[i] == Descriptors(types)[i]
      {
        assert types[i] in types;
        FinalAcceptsCanonicalOnly(types[i], sig.args[i]);
      }
      if Denotes(kind, f, sig) {
        assert sig.args == Descriptors(types);
      }
    }
  }

  /** When a signature is inferred, its printed form is the one string that matches. */
  lemma MatchIffInferred(kind: MethodKind, f: CppFunctionType, s: string)
    requires InferenceResult(kind, f).Returned? && InferenceResult(kind, f).value.Some?
    ensures MatchResult(kind, f, s) == Returned(true) <==> s == InferenceResult(kind, f).value.value.Print()
  {
    var sig := CanonicalSignature(kind, f);
    MatchIffDenotes(kind, f, s);
    FinalDenotesCanonicalOnly(kind, f, sig);
    if other: Signature :| s == other.Print() && Denotes(kind, f, other) {
      FinalDenotesCanonicalOnly(kind, f, other);
    }
  }

  /** Parsing the inferred string gives the canonical descriptors back. */
  lemma InferredParsesBack(kind: MethodKind, f: CppFunctionType)
    requires InferenceResult(kind, f).Returned? && InferenceResult(kind, f).value.Some?
    ensures var sig := InferenceResult(kind, f).value.value; ParseSignature(sig.Print()) == Some(sig)
  {
    CanonicalWellFormed(kind, f);
    PrintedParses(CanonicalSignature(kind, f));
  }

  /** Two descriptors that a type stands for; they differ unless the type is final. */
  function Example(t: CType, second: bool): string {
    match t
    case Jobject => if second then "Lb;" else "La;"
    case Jthrowable => if second then "Lb;" else "La;"
    case Jarray => if second then "[Z" else "[B"
    case JobjectArray => if second then "[Lb;" else "[La;"
    case _ => TypeDescriptorOf(t)
  }

  lemma ExamplesInGrammar()
    ensures IsTypeDescriptor("La;") && IsTypeDescriptor("Lb;")
    ensures IsTypeDescriptor("[La;") && IsTypeDescriptor("[Lb;")
    ensures IsTypeDescriptor("[B") && IsTypeDescriptor("[Z")
  {
    assert "[La;"[1..] == "La;" && "[Lb;"[1..] == "Lb;";
    assert "[B"[1..] == "B" && "[Z"[1..] == "Z";
  }

  lemma ExampleAccepted(t: CType, second: bool)
    requires t !in {JniEnvPtr, NotJni}
    ensures Accepts(t, Example(t, second))
    ensures IsReturnDescriptor(Example(t, second))
    ensures t != Void ==> IsTypeDescriptor(Example(t, second))
  {
    if t in {Jobject, Jthrowable, Jarray, JobjectArray} {
      ExamplesInGrammar();
      assert |Example(t, second)| <= 4;
      forall u | u in {Jclass, Jstring, Jthrowable} ensures Example(t, second) != TypeDescriptorOf(u) {
        assert |TypeDescriptorOf(u)| > 4;
      }
    } else {
      DescriptorInGrammar(t);
    }
  }

  function ExampleSignature(kind: MethodKind, f: FunctionType, second: bool): (sig: Signature)
    ensures |sig.args| == |JavaArgs(kind, f)|
    ensures forall i | 0 <= i < |sig.args| :: sig.args[i] == Example(JavaArgs(kind, f)[i], second)
  {
    var types := JavaArgs(kind, f);
    Signature(seq(|types|, i requires 0 <= i < |types| => Example(types[i], second)), Example(f.ret, second))
  }

  /** Every valid function type matches some string. */
  lemma ExampleMatches(kind: MethodKind, f: CppFunctionType, second: bool)
    requires IsValidJniFunctionType(kind, f) && !f.cvReturn
    ensures Denotes(kind, f, ExampleSignature(kind, f, second))
    ensures MatchResult(kind, f, ExampleSignature(kind, f, second).Print()) == Returned(true)
  {
    var sig, types := ExampleSignature(kind, f, second), JavaArgs(kind, f);
    JavaComponentsOfValid(kind, f);
    ExampleAccepted(f.ret, second);
    forall i | 0 <= i < |types|
      ensures Accepts(types[i], sig.args[i]) && IsTypeDescriptor(sig.args[i])
    {
      assert types[i] in types;
      ExampleAccepted(types[i], second);
    }
    MatchIffDenotes(kind, f, sig.Print());
  }

  lemma ExamplesDiffer(t: CType)
    requires !IsFinal(t) && t != NotJni
    ensures Example(t, false) != Example(t, true)
  {
    var x, y := Example(t, false), Example(t, true);
    assert x[1] != y[1] || x[2] != y[2];
  }

  /** A component that is not final leaves a choice: two different strings match. */
  lemma AmbiguousHasTwoMatches(kind: MethodKind, f: CppFunctionType)
    requires IsValidJniFunctionType(kind, f) && !f.cvReturn && !AllFinal(kind, f)
    ensures ExampleSignature(kind, f, false).Print() != ExampleSignature(kind, f, true).Print()
    ensures MatchResult(kind, f, ExampleSignature(kind, f, false).Print()) == Returned(true)
    ensures MatchResult(kind, f, ExampleSignature(kind, f, true).Print()) == Returned(true)
  {
    var a, b := ExampleSignature(kind, f, false), ExampleSignature(kind, f, true);
    ExampleMatches(kind, f, false);
    ExampleMatches(kind, f, true);
    JavaComponentsOfValid(kind, f);
    assert a != b by {
      if !IsFinal(f.ret) {
        ExamplesDiffer(f.ret);
      } else {
        var types := JavaArgs(kind, f);
        var i :| 0 <= i < |types| && !IsFinal(types[i]);
        assert types[i] in types;
        ExamplesDiffer(types[i]);
        assert a.args[i] != b.args[i];
      }
    }
    if a.Print() == b.Print() {
      PrintInjective(a, b);
    }
  }

  /** A signature is inferred exactly for the function types that match one string and no other. */
  lemma InferredIffUniqueMatch(kind: MethodKind, f: CppFunctionType)
    requires IsValidJniFunctionType(kind, f) && !f.cvReturn
    ensures InferenceResult(kind, f).value.Some? <==> exists s: string ::
              && MatchResult(kind, f, s) == Returned(true)
              && forall t: string | t != s :: MatchResult(kind, f, t) != Returned(true)
  {
    if AllFinal(kind, f) {
      var s := CanonicalSignature(kind, f).Print();
      forall t: string ensures MatchResult(kind, f, t) == Returned(true) <==> t == s {
        MatchIffInferred(kind, f, t);
      }
      assert MatchResult(kind, f, s) == Returned(true);
    } else {
      AmbiguousHasTwoMatches(kind, f);
    }
  }

  /** The inferred string contains no NUL, so the terminator is the only one in the buffer. */
  lemma InferredHasNoNul(kind: MethodKind, f: CppFunctionType)
    requires InferenceResult(kind, f).Returned? && InferenceResult(kind, f).value.Some?
    ensures '\0' !in InferenceResult(kind, f).value.value.Print()
  {
    var types := JavaArgs(kind, f);
    forall i | 0 <= i < |types| ensures '\0' !in Descriptors(types)[i] {
      NoNulInDescriptor(types[i]);
    }
    NoNulInDescriptor(f.ret);
    NoNulInConcat(Descriptors(types));
  }

  lemma NoNulInClassDescriptors()
    ensures '\0' !in "Ljava/lang/Object;" && '\0' !in "Ljava/lang/Class;"
    ensures '\0' !in "Ljava/lang/String;" && '\0' !in "Ljava/lang/Throwable;"
    ensures '\0' !in "[Ljava/lang/Object;" && '\0' !in "(illegal)"
  {
  }

  lemma NoNulInDescriptor(t: CType)
    ensures '\0' !in TypeDescriptorOf(t)
  {
    NoNulInClassDescriptors();
    if |TypeDescriptorOf(t)| == 2 {
      assert TypeDescriptorOf(t) == ['[', TypeDescriptorOf(t)[1]];
    }
  }

  lemma {:induction false} NoNulInConcat(parts: seq<string>)
    requires forall i | 0 <= i < |parts| :: '\0' !in parts[i]
    ensures '\0' !in Concat(parts)
  {
    if parts != [] {
      NoNulInConcat(parts[1..]);
    }
  }

  // ------------------------------------------------------------------------ calling conventions

  /** A critical native infers what the normal native with a receiver prepended infers. */
  lemma CriticalInfersLikeNormal(f: CppFunctionType, receiver: CType)
    requires receiver in {Jobject, Jclass} && IsValidJniFunctionType(CriticalNative, f)
    ensures InferenceResult(CriticalNative, f) == InferenceResult(NormalNative, WithReceiver(f, receiver))
  {
    CriticalIffPrimitiveNormal(f, receiver);
  }

  /** Nothing but a cv-qualified return type keeps a critical native from being inferred. */
  lemma CriticalAlwaysInferred(f: CppFunctionType)
    requires IsValidJniFunctionType(CriticalNative, f)
    ensures InferenceResult(CriticalNative, f).Returned? <==> !f.cvReturn
    ensures !f.cvReturn ==> InferenceResult(CriticalNative, f).value.Some?
  {
    ValidIffDocumentedForm(CriticalNative, f);
    assert JavaArgs(CriticalNative, f) == f.args;
  }

  lemma FastInfersLikeNormal(f: CppFunctionType)
    ensures InferenceResult(FastNative, f) == InferenceResult(NormalNative, f)
  {
    FastIffNormal(f);
  }
}
