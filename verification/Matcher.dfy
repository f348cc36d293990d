/** Matching a user-written method descriptor against a C++ function type. */
module Matcher {
  import opened Wrappers
  import opened ConstexprContainers
  import opened Grammar
  import opened Parser
  import opened TypeTraits
  import opened FunctionTypes

  // ----------------------------------------------------------------- comparing one component

  /** A type found by the lookup that is not final belongs to descriptors starting with `L` or `[`. */
  lemma NotFinalSimilarStart(d: string)
    requires MostSimilarType(d).Some? && !IsFinal(MostSimilarType(d).value)
    ensures |d| > 0 && d[0] in {'L', '['}
  {
    SimilarCases(d, MostSimilarType(d).value);
    DescriptorStart(MostSimilarType(d).value);
    assert MostSimilarType(d).value in {Jobject, JobjectArray, Jthrowable};
  }

  /** CompareJniDescriptorNodeErased.  The assertion behind its last branch is discharged here. */
  predicate CompareJniDescriptorNodeErased(d: string, derived: ReifiedJniTypeTrait) {
    match MostSimilarTypeDescriptor(d)
    case None => false
    case Some(user) =>
      var shorty := if |d| > 0 then d[0] else '\0';
      if user == derived then true
      else if derived.typeName == "jthrowable" then shorty == 'L'
      else if derived.typeName == "jarray" then shorty == '['
      else if derived.typeFinality == Final || user.typeFinality == Final then false
      else if shorty == '[' then false
      else if shorty == 'L' then false
      else
        NotFinalSimilarStart(d);
        assert false;
        false
  }

  /**
   The descriptors that a C++ type stands for.  jthrowable takes every class, jobject every class
   but the three with a type of their own, jarray every array, jobjectArray every array of
   references; any other type takes its canonical descriptor only.
   */
  predicate Accepts(t: CType, d: string) {
    match t
    case Jobject => |d| > 0 && d[0] == 'L' && forall u | u in {Jclass, Jstring, Jthrowable} :: d != TypeDescriptorOf(u)
    case Jthrowable => |d| > 0 && d[0] == 'L'
    case Jarray => |d| > 0 && d[0] == '['
    case JobjectArray => |d| > 1 && d[0] == '[' && d[1] in {'[', 'L'}
    case JniEnvPtr => false
    case NotJni => false
    case _ => d == TypeDescriptorOf(t)
  }

  lemma TypeNames(t: CType)
    ensures TypeNameOf(t) == "jthrowable" <==> t == Jthrowable
    ensures TypeNameOf(t) == "jarray" <==> t == Jarray
  {
    var x := TypeNameOf(t);
    assert |x| == 10 ==> x[1] in {'t', 'b', 'c', 'l'};
    assert |x| == 6 ==> x[1] in {'s', 'a', 'f', 'c'};
  }

  /** In terms of types: the comparison holds for the looked-up type and in the two weak cases. */
  lemma CompareByType(d: string, t: CType)
    ensures CompareJniDescriptorNodeErased(d, Reify(t)) <==>
              && MostSimilarType(d).Some?
              && (|| MostSimilarType(d).value == t
                  || (t == Jthrowable && |d| > 0 && d[0] == 'L')
                  || (t == Jarray && |d| > 0 && d[0] == '['))
  {
    TypeNames(t);
    if MostSimilarType(d).Some? && Reify(MostSimilarType(d).value) == Reify(t) {
      ReifyInjective(MostSimilarType(d).value, t);
    }
  }

  lemma SimilarIsObject(d: string)
    ensures MostSimilarType(d) == Some(Jobject) <==> Accepts(Jobject, d)
  {
    if MostSimilarType(d) == Some(Jobject) {
      SimilarCases(d, Jobject);
      DescriptorStart(Jobject);
      forall u | u in {Jclass, Jstring, Jthrowable} ensures d != TypeDescriptorOf(u) {
        SimilarToOwnDescriptor(u);
      }
    }
    if Accepts(Jobject, d) {
      SimilarToClass(d);
      SimilarCases(d, MostSimilarType(d).value);
    }
  }

  lemma SimilarIsObjectArray(d: string)
    ensures MostSimilarType(d) == Some(JobjectArray) <==> Accepts(JobjectArray, d)
  {
    if MostSimilarType(d) == Some(JobjectArray) {
      SimilarCases(d, JobjectArray);
      DescriptorStart(JobjectArray);
    }
    if Accepts(JobjectArray, d) {
      SimilarToArray(d);
    }
  }

  lemma SimilarIsCanonical(d: string, t: CType)
    requires t !in {Jobject, JobjectArray, Jarray, JniEnvPtr, NotJni}
    ensures MostSimilarType(d) == Some(t) <==> d == TypeDescriptorOf(t)
  {
    if MostSimilarType(d) == Some(t) {
      SimilarCases(d, t);
    }
    if d == TypeDescriptorOf(t) {
      SimilarToOwnDescriptor(t);
    }
  }

  /** On every descriptor that the parser yields, the comparison decides `Accepts`. */
  lemma CompareIffAccepts(d: string, t: CType)
    requires IsReturnDescriptor(d)
    ensures CompareJniDescriptorNodeErased(d, Reify(t)) <==> Accepts(t, d)
  {
    hide CompareJniDescriptorNodeErased, Reify;
    CompareByType(d, t);
    ParsedDescriptorHasSimilar(d);
    SimilarCases(d, MostSimilarType(d).value);
    if t == Jobject {
      SimilarIsObject(d);
    } else if t == JobjectArray {
      SimilarIsObjectArray(d);
    } else if t !in {Jarray, JniEnvPtr, NotJni} {
      SimilarIsCanonical(d, t);
      DescriptorStart(t);
    }
  }

  /** The comparison in terms of descriptors alone. */
  lemma ComparisonForms(t: CType, d: string)
    requires IsReturnDescriptor(d)
    ensures CompareJniDescriptorNodeErased(d, Reify(t)) <==>
              match t
              case Jobject => d[0] == 'L' && d !in {"Ljava/lang/Class;", "Ljava/lang/String;", "Ljava/lang/Throwable;"}
              case Jthrowable => d[0] == 'L'
              case Jarray => d[0] == '['
              case JobjectArray => |d| > 1 && d[0] == '[' && (d[1] == '[' || d[1] == 'L')
              case JniEnvPtr => false
              case NotJni => false
              case _ => d == TypeDescriptorOf(t)
  {
    hide CompareJniDescriptorNodeErased, Reify, TypeDescriptorOf;
    CompareIffAccepts(d, t);
    if t in {Jobject, Jthrowable, Jarray} {
      WeaklyAccepted(t, d);
    }
  }

  // ------------------------------------------------------------- the documented matching rules

  /** The strong rows of the matching table in jni_macros.h: left and right pattern both occur. */
  predicate StrongRow(t: CType, d: string) {
    || (d == "V" && t == Void)
    || (|d| == 1 && IsPrimitiveLetter(d[0]) && t == PrimitiveOf(d[0]))
    || (d == "Ljava/lang/String;" && t == Jstring)
    || (d == "Ljava/lang/Class;" && t == Jclass)
    || (|d| == 2 && d[0] == '[' && IsPrimitiveLetter(d[1]) && t == PrimitiveArrayOf(d[1]))
    || (|d| >= 2 && d[0] == '[' && d[1] in {'L', '['} && t == JobjectArray)
  }

  /** The weak rows. */
  predicate WeakRow(t: CType, d: string) {
    || (|d| > 0 && d[0] == 'L' && t in {Jobject, Jthrowable})
    || (|d| > 0 && d[0] == '[' && t == Jarray)
  }

  /** Either pattern of a strong row occurs. */
  ghost predicate StrongRowOccurs(t: CType, d: string) {
    (exists u: CType :: StrongRow(u, d)) || (exists e: string :: StrongRow(t, e))
  }

  /** The rules as documented: a strong row that occurs decides, and otherwise the weak rows apply. */
  ghost predicate Documented(t: CType, d: string) {
    if StrongRowOccurs(t, d) then StrongRow(t, d) else WeakRow(t, d)
  }

  /** Where the comparison departs from the documented rules. */
  predicate Departs(t: CType, d: string) {
    || (t == Jthrowable && d in {"Ljava/lang/String;", "Ljava/lang/Class;"})
    || (t == Jarray && |d| > 0 && d[0] == '[')
    || (t == Jobject && d == "Ljava/lang/Throwable;")
  }

  /** The strong rows, one by one. */
  lemma StrongRowsListed(t: CType, d: string)
    ensures StrongRow(t, d) <==>
              || (d == "V" && t == Void)
              || (d == "Z" && t == Jboolean) || (d == "B" && t == Jbyte) || (d == "C" && t == Jchar)
              || (d == "S" && t == Jshort) || (d == "I" && t == Jint) || (d == "J" && t == Jlong)
              || (d == "F" && t == Jfloat) || (d == "D" && t == Jdouble)
              || (d == "Ljava/lang/String;" && t == Jstring) || (d == "Ljava/lang/Class;" && t == Jclass)
              || (d == "[Z" && t == JbooleanArray) || (d == "[B" && t == JbyteArray) || (d == "[C" && t == JcharArray)
              || (d == "[S" && t == JshortArray) || (d == "[I" && t == JintArray) || (d == "[J" && t == JlongArray)
              || (d == "[F" && t == JfloatArray) || (d == "[D" && t == JdoubleArray)
              || (|d| >= 2 && d[0] == '[' && (d[1] == 'L' || d[1] == '[') && t == JobjectArray)
  {
    if |d| == 1 {
      assert d == [d[0]];
    } else if |d| == 2 {
      assert d == [d[0], d[1]];
    }
  }

  /** The documented rules in terms of the strong rows. */
  lemma DocumentedForms(t: CType, d: string)
    ensures Documented(t, d) <==>
              if (exists u: CType :: StrongRow(u, d)) || (exists e: string :: StrongRow(t, e)) then StrongRow(t, d)
              else
                || (|d| > 0 && d[0] == 'L' && (t == Jobject || t == Jthrowable))
                || (|d| > 0 && d[0] == '[' && t == Jarray)
  {
    hide StrongRow;
  }

  lemma StrongTypes(t: CType)
    ensures (exists e: string :: StrongRow(t, e)) <==> t !in {Jobject, Jthrowable, Jarray, JniEnvPtr, NotJni}
  {
    if t == JobjectArray {
      assert StrongRow(t, "[L");
    } else if t !in {Jobject, Jthrowable, Jarray, JniEnvPtr, NotJni} {
      CanonicalIsStrongRow(t);
    }
  }

  lemma StrongDescriptors(d: string)
    requires IsReturnDescriptor(d)
    ensures (exists u: CType :: StrongRow(u, d)) <==> d[0] != 'L' || d in {"Ljava/lang/String;", "Ljava/lang/Class;"}
  {
    if d == "V" {
      assert StrongRow(Void, d);
    } else if d[0] == '[' {
      assert IsTypeDescriptor(d[1..]);
      assert StrongRow(if d[1] in {'L', '['} then JobjectArray else PrimitiveArrayOf(d[1]), d);
    } else if d[0] != 'L' {
      assert StrongRow(PrimitiveOf(d[0]), d);
    } else if d == "Ljava/lang/String;" {
      assert StrongRow(Jstring, d);
    } else if d == "Ljava/lang/Class;" {
      assert StrongRow(Jclass, d);
    }
  }

  lemma LetterDescriptors(c: char)
    requires IsPrimitiveLetter(c)
    ensures TypeDescriptorOf(PrimitiveOf(c)) == [c] && TypeDescriptorOf(PrimitiveArrayOf(c)) == ['[', c]
  {
  }

  lemma StrongRowIsCanonical(t: CType, d: string)
    requires StrongRow(t, d) && t != JobjectArray
    ensures d == TypeDescriptorOf(t)
  {
    if |d| == 1 && IsPrimitiveLetter(d[0]) {
      LetterDescriptors(d[0]);
      assert d == [d[0]];
    } else if |d| == 2 && d[0] == '[' {
      LetterDescriptors(d[1]);
      assert d == [d[0], d[1]];
    }
  }

  lemma CanonicalIsStrongRow(t: CType)
    requires t !in {Jobject, Jthrowable, Jarray, JobjectArray, JniEnvPtr, NotJni}
    ensures StrongRow(t, TypeDescriptorOf(t))
  {
  }

  /** A type on the right of a strong row is given what the table gives it. */
  lemma StrongRowIffAccepts(t: CType, d: string)
    requires t !in {Jobject, Jthrowable, Jarray}
    ensures StrongRow(t, d) <==> Accepts(t, d)
  {
    hide TypeDescriptorOf;
    if t !in {JobjectArray, JniEnvPtr, NotJni} {
      hide StrongRow;
      CanonicalIsStrongRow(t);
      if StrongRow(t, d) {
        StrongRowIsCanonical(t, d);
      }
    }
  }

  /**
   The comparison agrees with the documented rules exactly outside of three families: jthrowable
   against String and Class, jarray against arrays of any kind, and jobject against Throwable.
   */
  lemma ComparesAsDocumentedIff(t: CType, d: string)
    requires IsReturnDescriptor(d)
    ensures (CompareJniDescriptorNodeErased(d, Reify(t)) <==> Documented(t, d)) <==> !Departs(t, d)
    ensures Departs(t, d) <==>
              || (t == Jthrowable && (d == "Ljava/lang/String;" || d == "Ljava/lang/Class;"))
              || (t == Jarray && d[0] == '[')
              || (t == Jobject && d == "Ljava/lang/Throwable;")
  {
    hide CompareJniDescriptorNodeErased, Reify, Documented, Accepts;
    assert |d| > 0;
    CompareIffAccepts(d, t);
    if t in {Jobject, Jthrowable, Jarray} {
      WeaklyDocumented(t, d);
      WeaklyAccepted(t, d);
    } else {
      StronglyDocumented(t, d);
      StrongRowIffAccepts(t, d);
    }
  }

  lemma StronglyDocumented(t: CType, d: string)
    requires t !in {Jobject, Jthrowable, Jarray}
    ensures Documented(t, d) <==> StrongRow(t, d)
  {
    StrongTypes(t);
  }

  lemma WeaklyDocumented(t: CType, d: string)
    requires IsReturnDescriptor(d) && t in {Jobject, Jthrowable, Jarray}
    ensures Documented(t, d) <==>
              t != Jarray && d[0] == 'L' && d !in {"Ljava/lang/String;", "Ljava/lang/Class;"}
  {
    StrongTypes(t);
    StrongDescriptors(d);
    assert !StrongRow(t, d) by {
      hide IsTypeDescriptor;
    }
  }

  lemma WeaklyAccepted(t: CType, d: string)
    requires |d| > 0 && t in {Jobject, Jthrowable, Jarray}
    ensures Accepts(t, d) <==>
              match t
              case Jobject => d[0] == 'L' && d !in {"Ljava/lang/Class;", "Ljava/lang/String;", "Ljava/lang/Throwable;"}
              case Jthrowable => d[0] == 'L'
              case _ => d[0] == '['
  {
    if t == Jobject {
      ClassTypes();
      hide TypeDescriptorOf;
      assert Accepts(t, d) <==>
        d[0] == 'L' && d != TypeDescriptorOf(Jclass) && d != TypeDescriptorOf(Jstring) && d != TypeDescriptorOf(Jthrowable);
    }
  }

  lemma ClassTypes()
    ensures TypeDescriptorOf(Jclass) == "Ljava/lang/Class;"
    ensures TypeDescriptorOf(Jstring) == "Ljava/lang/String;"
    ensures TypeDescriptorOf(Jthrowable) == "Ljava/lang/Throwable;"
  {
  }

  // ------------------------------------------------------------------- comparing signatures

  /** Every listed parameter and the result compare equal, and there are equally many of them. */
  ghost predicate ComparesTo(sig: Signature, kind: MethodKind, f: FunctionType) {
    var types := JavaArgs(kind, f);
    && |sig.args| == |types|
    && CompareJniDescriptorNodeErased(sig.ret, Reify(f.ret))
    && forall i | 0 <= i < |types| :: CompareJniDescriptorNodeErased(sig.args[i], Reify(types[i]))
  }

  /** The result of the matcher for a string. */
  ghost function MatchResult(kind: MethodKind, f: CppFunctionType, s: string): Checked<bool> {
    if !IsValidJniFunctionType(kind, f) then Returned(false)
    else if f.cvReturn then AssertionFailed
    else
      match ParseSignature(s)
      case None => Returned(false)
      case Some(sig) => Returned(ComparesTo(sig, kind, f))
  }

  /** The comparison of a whole signature in terms of the traits that the vectors hold. */
  ghost predicate ComparesToTraits(sig: Signature, args: seq<ReifiedJniTypeTrait>, ret: ReifiedJniTypeTrait) {
    && |sig.args| == |args|
    && CompareJniDescriptorNodeErased(sig.ret, ret)
    && forall i | 0 <= i < |args| :: CompareJniDescriptorNodeErased(sig.args[i], args[i])
  }

  lemma ComparesToItsTraits(sig: Signature, kind: MethodKind, f: FunctionType)
    ensures ComparesTo(sig, kind, f) <==> ComparesToTraits(sig, Traits(JavaArgs(kind, f)), Reify(f.ret))
  {
    var types := JavaArgs(kind, f);
    if |sig.args| == |types| {
      assert forall i | 0 <= i < |types| :: Traits(types)[i] == Reify(types[i]);
    }
  }

  method CompareArguments(user: ConstexprVector<JniDescriptorNode>,
                          reified: ConstexprVector<ReifiedJniTypeTrait>)
    returns (all: bool)
    requires user.Valid() && reified.Valid() && user.size == reified.size
    ensures all <==> forall i | 0 <= i < user.size ::
                       CompareJniDescriptorNodeErased(Texts(user.Elements())[i], reified.Elements()[i])
  {
    hide CompareJniDescriptorNodeErased;
    ghost var texts := Texts(user.Elements());
    var i := 0;
    while i < user.size
      invariant i <= user.size
      invariant forall j | 0 <= j < i :: CompareJniDescriptorNodeErased(texts[j], reified.Elements()[j])
    {
      var node := user.At(i);
      assert node.Chars() == texts[i];
      if !CompareJniDescriptorNodeErased(node.Chars(), reified.At(i)) {
        return false;
      }
      i := i + 1;
    }
    return true;
  }

  /** MatchJniDescriptorWithFunctionType computes MatchResult with no other assertion failing. */
  method MatchJniDescriptorWithFunctionType(kind: MethodKind, f: CppFunctionType,
                                            kMaxSize: nat, user: ConstexprStringView)
    returns (res: Checked<bool>)
    requires user.size <= kMaxSize + 1
    ensures res == MatchResult(kind, f, user.Chars())
    ensures res.AssertionFailed? <==> IsValidJniFunctionType(kind, f) && f.cvReturn
    ensures !IsValidJniFunctionType(kind, f) ==> res == Returned(false)
    ensures !IsSignature(user.Chars()) && !(IsValidJniFunctionType(kind, f) && f.cvReturn) ==> res == Returned(false)
  {
    MatchResultIff(kind, f, user.Chars());
    var reified := MaybeMakeReifiedJniSignature(kind, f);
    if reified.AssertionFailed? {
      return AssertionFailed;
    }
    if reified.value.None? {
      return Returned(false);
    }
    var parsed := ParseSignatureAsList(kMaxSize, user);
    if parsed.None? {
      return Returned(false);
    }
    ComparesToItsTraits(ParseSignature(user.Chars()).value, kind, f);
    var all := CompareSignatures(parsed.value, reified.value.value);
    return Returned(all);
  }

  method CompareSignatures(user: JniSignatureDescriptor, reified: ReifiedJniSignature) returns (all: bool)
    requires user.args.Valid() && reified.args.Valid()
    ensures all <==> ComparesToTraits(Signature(Texts(user.args.Elements()), user.ret.Chars()),
                                      reified.args.Elements(), reified.ret)
  {
    if reified.args.size != user.args.size {
      return false;
    }
    if !CompareJniDescriptorNodeErased(user.ret.Chars(), reified.ret) {
      return false;
    }
    all := CompareArguments(user.args, reified.args);
  }

  // ------------------------------------------------------------------------ what a match means

  /** A signature whose components the function's types stand for, position by position. */
  ghost predicate Denotes(kind: MethodKind, f: FunctionType, sig: Signature) {
    var types := JavaArgs(kind, f);
    && sig.WellFormed()
    && |sig.args| == |types|
    && Accepts(f.ret, sig.ret)
    && forall i | 0 <= i < |types| :: Accepts(types[i], sig.args[i])
  }

  /** The strings that match are the printed forms of the signatures that the function denotes. */
  lemma MatchIffDenotes(kind: MethodKind, f: CppFunctionType, s: string)
    requires IsValidJniFunctionType(kind, f) && !f.cvReturn
    ensures MatchResult(kind, f, s) == Returned(true) <==>
              exists sig: Signature :: s == sig.Print() && Denotes(kind, f, sig)
  {
    if ParseSignature(s).Some? {
      var sig := ParseSignature(s).value;
      ParseIffPrint(s, sig);
      ComparesIffDenotes(kind, f, sig);
    }
    if sig: Signature :| s == sig.Print() && Denotes(kind, f, sig) {
      ParseIffPrint(s, sig);
    }
  }

  /**
   The result of the matcher for every function type and every string.  An assertion stops it
   exactly for valid types with a cv-qualified return type, whatever the string; no other input
   does more than fail to match.
   */
  lemma MatchResultIff(kind: MethodKind, f: CppFunctionType, s: string)
    ensures MatchResult(kind, f, s).AssertionFailed? <==> IsValidJniFunctionType(kind, f) && f.cvReturn
    ensures MatchResult(kind, f, s) == Returned(true) <==>
              && IsValidJniFunctionType(kind, f) && !f.cvReturn
              && exists sig: Signature ::
                   && s == "(" + Concat(sig.args) + ")" + sig.ret
                   && (forall i | 0 <= i < |sig.args| :: IsTypeDescriptor(sig.args[i])) && IsReturnDescriptor(sig.ret)
                   && |sig.args| == |JavaArgs(kind, f)|
                   && CompareJniDescriptorNodeErased(sig.ret, Reify(f.ret))
                   && forall i | 0 <= i < |sig.args| ::
                        CompareJniDescriptorNodeErased(sig.args[i], Reify(JavaArgs(kind, f)[i]))
  {
    hide IsValidJniFunctionType, CompareJniDescriptorNodeErased, Reify, ParseSignature, IsTypeDescriptor, Concat, JavaArgs;
    if MatchResult(kind, f, s) == Returned(true) {
      var sig := ParseSignature(s).value;
      ParseIffPrint(s, sig);
      SignatureForm(sig);
    }
    forall sig: Signature | s == "(" + Concat(sig.args) + ")" + sig.ret && sig.WellFormed()
      ensures ParseSignature(s) == Some(sig)
    {
      SignatureForm(sig);
      ParseIffPrint(s, sig);
    }
  }

  lemma ComparesIffDenotes(kind: MethodKind, f: CppFunctionType, sig: Signature)
    requires sig.WellFormed()
    ensures ComparesTo(sig, kind, f) <==> Denotes(kind, f, sig)
  {
    CompareIffAccepts(sig.ret, f.ret);
    var types := JavaArgs(kind, f);
    if |sig.args| == |types| {
      forall i | 0 <= i < |types|
        ensures CompareJniDescriptorNodeErased(sig.args[i], Reify(types[i])) <==> Accepts(types[i], sig.args[i])
      {
        CompareIffAccepts(sig.args[i], types[i]);
      }
    }
  }

  /** The documented rules, position by position. */
  ghost predicate DocumentedMatch(kind: MethodKind, f: FunctionType, sig: Signature) {
    var types := JavaArgs(kind, f);
    && |sig.args| == |types|
    && Documented(f.ret, sig.ret)
    && forall i | 0 <= i < |types| :: Documented(types[i], sig.args[i])
  }

  ghost predicate DepartsSomewhere(kind: MethodKind, f: FunctionType, sig: Signature) {
    var types := JavaArgs(kind, f);
    || Departs(f.ret, sig.ret)
    || exists i | 0 <= i < |types| && i < |sig.args| :: Departs(types[i], sig.args[i])
  }

  /** Where no position departs, a signature matches exactly as documented. */
  lemma MatchesAsDocumented(kind: MethodKind, f: CppFunctionType, sig: Signature)
    requires IsValidJniFunctionType(kind, f) && !f.cvReturn
    requires sig.WellFormed() && !DepartsSomewhere(kind, f, sig)
    ensures MatchResult(kind, f, sig.Print()) == Returned(true) <==> DocumentedMatch(kind, f, sig)
  {
    hide CompareJniDescriptorNodeErased, Documented, Departs, IsTypeDescriptor, IsValidJniFunctionType;
    ParseIffPrint(sig.Print(), sig);
    ComparesAsDocumentedIff(f.ret, sig.ret);
    var types := JavaArgs(kind, f);
    forall i | 0 <= i < |types| && i < |sig.args|
      ensures CompareJniDescriptorNodeErased(sig.args[i], Reify(types[i])) <==> Documented(types[i], sig.args[i])
    {
      ComparesAsDocumentedIff(types[i], sig.args[i]);
    }
  }

  /** A normal native method with one Java parameter, and a signature for it. */
  function OneParameter(t: CType): FunctionType {
    FunctionType([JniEnvPtr, Jobject, t], Void, false)
  }

  function OneDescriptor(d: string): Signature {
    Signature([d], "V")
  }

  /** The method with this parameter and the signature with this descriptor match contrary to the table. */
  ghost predicate DiffersFromTable(t: CType, d: string, matches: bool)
    requires t != Void
  {
    var f, sig := OneParameter(t), OneDescriptor(d);
    && MatchResult(NormalNative, f, sig.Print()) == Returned(matches)
    && (DocumentedMatch(NormalNative, f, sig) <==> !matches)
  }

  /** Spelled out: the function type is void(JNIEnv*, jobject, t), and the string is d in parentheses and V. */
  lemma DiffersForms(t: CType, d: string, matches: bool)
    requires IsTypeDescriptor(d) && IsJavaType(t) && DiffersFromTable(t, d, matches)
    ensures MatchResult(NormalNative, FunctionType([JniEnvPtr, Jobject, t], Void, false), "(" + d + ")V") == Returned(matches)
    ensures Documented(t, d) <==> !matches
  {
    hide MatchResult, Documented, IsTypeDescriptor, DocumentedMatch, CompareJniDescriptorNodeErased, Reify;
    OneParameterMatches(t, d);
    ConcatForms([], [], d);
    SignatureForm(OneDescriptor(d));
    assert "(" + d + ")" + "V" == "(" + d + ")V";
  }

  /** Every departure shows in a signature. */
  lemma DepartureShows(t: CType, d: string)
    requires IsTypeDescriptor(d) && Departs(t, d)
    ensures DiffersFromTable(t, d, t != Jobject)
  {
    hide CompareJniDescriptorNodeErased, Documented, IsTypeDescriptor, IsValidJniFunctionType, Departs, Accepts, Reify;
    DepartureCompares(t, d);
    ComparesAsDocumentedIff(t, d);
    OneParameterMatches(t, d);
  }

  lemma OneParameterMatches(t: CType, d: string)
    requires IsJavaType(t) && IsTypeDescriptor(d)
    ensures var f, sig := OneParameter(t), OneDescriptor(d);
            && MatchResult(NormalNative, f, sig.Print()) == Returned(CompareJniDescriptorNodeErased(d, Reify(t)))
            && (DocumentedMatch(NormalNative, f, sig) <==> Documented(t, d))
  {
    hide CompareJniDescriptorNodeErased, Documented, IsTypeDescriptor, IsValidJniFunctionType, Reify, ParseSignature;
    var f, sig := OneParameter(t), OneDescriptor(d);
    OneParameterValid(t);
    VoidAsDocumented();
    ParseIffPrint(sig.Print(), sig);
    assert ComparesTo(sig, NormalNative, f) <==> CompareJniDescriptorNodeErased(d, Reify(t));
    assert DocumentedMatch(NormalNative, f, sig) <==> Documented(t, d);
  }

  lemma DepartureCompares(t: CType, d: string)
    requires IsTypeDescriptor(d) && Departs(t, d)
    ensures t in {Jobject, Jthrowable, Jarray}
    ensures CompareJniDescriptorNodeErased(d, Reify(t)) <==> t != Jobject
  {
    hide CompareJniDescriptorNodeErased, Reify, Accepts;
    CompareIffAccepts(d, t);
    WeaklyAccepted(t, d);
  }

  lemma OneParameterValid(t: CType)
    requires IsJavaType(t)
    ensures IsValidJniFunctionType(NormalNative, OneParameter(t)) && JavaArgs(NormalNative, OneParameter(t)) == [t]
  {
    ValidIffDocumentedForm(NormalNative, OneParameter(t));
  }

  lemma VoidAsDocumented()
    ensures CompareJniDescriptorNodeErased("V", Reify(Void)) && Documented(Void, "V") && !Departs(Void, "V")
  {
    CompareIffAccepts("V", Void);
    ComparesAsDocumentedIff(Void, "V");
  }

  /** jthrowable takes a String although the table reserves that for jstring. */
  lemma ThrowableTakesString()
    ensures DiffersFromTable(Jthrowable, "Ljava/lang/String;", true)
  {
    ClassDescriptorsInGrammar();
    DepartureShows(Jthrowable, "Ljava/lang/String;");
  }

  lemma ThrowableTakesClass()
    ensures DiffersFromTable(Jthrowable, "Ljava/lang/Class;", true)
  {
    ClassDescriptorsInGrammar();
    DepartureShows(Jthrowable, "Ljava/lang/Class;");
  }

  /** jarray takes arrays although the table reserves each for an array type of its own. */
  lemma ArrayTakesPrimitiveArray()
    ensures DiffersFromTable(Jarray, "[I", true)
  {
    assert "[I"[1..] == "I";
    DepartureShows(Jarray, "[I");
  }

  lemma ObjectArrayDescriptor()
    ensures TypeDescriptorOf(JobjectArray) == "[Ljava/lang/Object;"
  {
  }

  lemma ArrayTakesReferenceArray()
    ensures DiffersFromTable(Jarray, "[Ljava/lang/Object;", true)
  {
    hide TypeDescriptorOf;
    ObjectArrayDescriptor();
    DescriptorInGrammar(JobjectArray);
    DepartureShows(Jarray, "[Ljava/lang/Object;");
  }

  /** jobject refuses a Throwable although the table lets it have any class without a type of its own. */
  lemma ObjectRefusesThrowable()
    ensures DiffersFromTable(Jobject, "Ljava/lang/Throwable;", false)
  {
    ClassDescriptorsInGrammar();
    DepartureShows(Jobject, "Ljava/lang/Throwable;");
  }

  /** A const-qualified return type is valid, and stops the matcher at an assertion. */
  lemma QualifiedReturnStops()
    ensures var f := FunctionType([], Jint, true);
            IsValidJniFunctionType(CriticalNative, f) && MatchResult(CriticalNative, f, "()I") == AssertionFailed
  {
  }

  /** How the calling convention passes a value: by its own primitive type, by reference, or not at all. */
  datatype Passing = ByValue(primitive: CType) | ByReference | NoValue

  function PassingOfType(t: CType): Passing {
    if IsPrimitive(t) then ByValue(t) else if IsReference(t) then ByReference else NoValue
  }

  function PassingOfDescriptor(d: string): Passing
    requires IsReturnDescriptor(d)
  {
    if IsPrimitiveLetter(d[0]) then ByValue(PrimitiveOf(d[0]))
    else if d == "V" then NoValue
    else ByReference
  }

  /** Which descriptors and types are passed alike: letters with their own types, references with references. */
  lemma PassingForms(t: CType, d: string)
    requires IsReturnDescriptor(d)
    ensures PassingOfType(t) == PassingOfDescriptor(d) <==>
              || (d == "Z" && t == Jboolean) || (d == "B" && t == Jbyte) || (d == "C" && t == Jchar)
              || (d == "S" && t == Jshort) || (d == "I" && t == Jint) || (d == "J" && t == Jlong)
              || (d == "F" && t == Jfloat) || (d == "D" && t == Jdouble)
              || (d == "V" && (t == Void || t == JniEnvPtr || t == NotJni))
              || ((d[0] == 'L' || d[0] == '[') && IsReference(t))
  {
    if |d| == 1 {
      assert d == [d[0]];
    }
  }

  lemma AcceptedPassesAlike(t: CType, d: string)
    requires IsReturnDescriptor(d) && Accepts(t, d)
    ensures PassingOfType(t) == PassingOfDescriptor(d)
  {
    if t !in {Jobject, Jthrowable, Jarray, JobjectArray} {
      DescriptorStart(t);
      if IsPrimitive(t) {
        PrimitiveOfOwnLetter(t);
      }
    }
  }

  lemma PrimitiveOfOwnLetter(t: CType)
    requires IsPrimitive(t)
    ensures TypeDescriptorOf(t) != "" && IsPrimitiveLetter(TypeDescriptorOf(t)[0])
    ensures PrimitiveOf(TypeDescriptorOf(t)[0]) == t
  {
  }

  /**
   A match guarantees that the caller that works from the descriptor and the C++ function agree
   on the number of Java parameters and on how each of them and the result is passed.
   */
  lemma MatchAgreesOnPassing(kind: MethodKind, f: CppFunctionType, s: string)
    requires MatchResult(kind, f, s) == Returned(true)
    ensures ParseSignature(s).Some?
    ensures var sig := ParseSignature(s).value;
            var skip := if kind == CriticalNative then 0 else 2;
            && sig.WellFormed()
            && |f.args| == skip + |sig.args|
            && PassingOfType(f.ret) == PassingOfDescriptor(sig.ret)
            && forall i | 0 <= i < |sig.args| ::
                 PassingOfType(f.args[skip + i]) == PassingOfDescriptor(sig.args[i])
  {
    hide CompareJniDescriptorNodeErased, Accepts, ParseSignature, PassingOfType, PassingOfDescriptor;
    hide IsTypeDescriptor, IsValidJniFunctionType, ComparesTo, Signature.Print;
    var sig := ParseSignature(s).value;
    ParseIffPrint(s, sig);
    ValidComponentsHaveTraits(kind, f);
    ComparesIffDenotes(kind, f, sig);
    AcceptedPassesAlike(f.ret, sig.ret);
    var skip := SkipArgumentPrefix(kind);
    forall i | 0 <= i < |sig.args|
      ensures PassingOfType(f.args[skip + i]) == PassingOfDescriptor(sig.args[i])
    {
      assert JavaArgs(kind, f)[i] == f.args[skip + i];
      AcceptedPassesAlike(f.args[skip + i], sig.args[i]);
    }
  }

  lemma {:induction false} ConcatOfLetters(parts: seq<string>)
    requires forall i | 0 <= i < |parts| :: |parts[i]| == 1
    ensures |Concat(parts)| == |parts|
  {
    if parts != [] {
      ConcatOfLetters(parts[1..]);
    }
  }

  lemma LetterUnlessReference(d: string)
    requires IsReturnDescriptor(d) && !PassingOfDescriptor(d).ByReference?
    ensures |d| == 1
  {
  }

  /** A critical native matches only strings of one character per parameter, and three more. */
  lemma CriticalMatchLength(f: CppFunctionType, s: string)
    requires MatchResult(CriticalNative, f, s) == Returned(true)
    ensures |s| == |f.args| + 3
  {
    hide CompareJniDescriptorNodeErased, ParseSignature, IsTypeDescriptor, IsPrimitive, Reify;
    var sig := ParseSignature(s).value;
    MatchAgreesOnPassing(CriticalNative, f, s);
    ValidIffDocumentedForm(CriticalNative, f);
    ParseIffPrint(s, sig);
    forall i | 0 <= i < |sig.args| ensures |sig.args[i]| == 1 {
      assert IsPrimitive(f.args[i]);
      LetterUnlessReference(sig.args[i]);
    }
    LetterUnlessReference(sig.ret);
    ConcatOfLetters(sig.args);
  }

  /**
   A function type and the same type with a receiver prepended accept the same strings, as
   critical and as normal native method, whenever the former is valid as critical.
   */
  lemma CriticalMatchesLikeNormal(f: CppFunctionType, receiver: CType, s: string)
    requires receiver in {Jobject, Jclass} && IsValidJniFunctionType(CriticalNative, f)
    ensures MatchResult(CriticalNative, f, s) == MatchResult(NormalNative, WithReceiver(f, receiver), s)
  {
    hide TypeDescriptorOf;
    hide TypeNameOf;
    hide CompareJniDescriptorNodeErased;
    CriticalIffPrimitiveNormal(f, receiver);
  }

  lemma FastMatchesLikeNormal(f: CppFunctionType, s: string)
    ensures MatchResult(FastNative, f, s) == MatchResult(NormalNative, f, s)
  {
    FastIffNormal(f);
  }
}
