/**
 The table of JNI type traits, the lookup of a descriptor in it, and the comparison of a
 user-written descriptor with the trait of a C++ type.
 */
module TypeTraits {
  import opened Wrappers
  import opened Grammar

  /** The C++ types with a trait of their own; NotJni is every other C++ type. */
  datatype CType =
    | Jboolean | Jbyte | Jchar | Jshort | Jint | Jlong | Jfloat | Jdouble
    | Jobject | Jclass | Jstring | Jarray | JobjectArray
    | JbooleanArray | JbyteArray | JcharArray | JshortArray
    | JintArray | JlongArray | JfloatArray | JdoubleArray
    | Jthrowable | JniEnvPtr | Void
    | NotJni

  datatype NativeKind =
    | NotJniKind
    | NormalJniCallingConventionParameter
    | NormalNative
    | FastNative
    | CriticalNative
  {
    function Rank(): nat {
      match this
      case NotJniKind => 0
      case NormalJniCallingConventionParameter => 1
      case NormalNative => 2
      case FastNative => 3
      case CriticalNative => 4
    }
  }

  datatype TypeFinal = NotFinal | Final

  datatype Position =
    | NotAnyPosition
    | ReturnPosition
    | ZerothPosition
    | FirstOrLaterPosition
    | SecondOrLaterPosition

  datatype ReifiedJniTypeTrait = ReifiedJniTypeTrait(
    nativeKind: NativeKind,
    typeDescriptor: string,
    positionAllowed: Position,
    typeFinality: TypeFinal,
    typeName: string)

  // The columns of the trait table.  The table of the original gives one row per type; the
  // primary template, for all other types, is the row of NotJni.

  function NativeKindOf(t: CType): NativeKind {
    if t in {Jboolean, Jbyte, Jchar, Jshort, Jint, Jlong, Jfloat, Jdouble, Void} then CriticalNative
    else if t == JniEnvPtr then NormalJniCallingConventionParameter
    else if t == NotJni then NotJniKind
    else FastNative
  }

  function TypeDescriptorOf(t: CType): string {
    match t
    case Jboolean => "Z"
    case Jbyte => "B"
    case Jchar => "C"
    case Jshort => "S"
    case Jint => "I"
    case Jlong => "J"
    case Jfloat => "F"
    case Jdouble => "D"
    case Jobject => "Ljava/lang/Object;"
    case Jclass => "Ljava/lang/Class;"
    case Jstring => "Ljava/lang/String;"
    case Jarray => "Ljava/lang/Object;"
    case JobjectArray => "[Ljava/lang/Object;"
    case JbooleanArray => "[Z"
    case JbyteArray => "[B"
    case JcharArray => "[C"
    case JshortArray => "[S"
    case JintArray => "[I"
    case JlongArray => "[J"
    case JfloatArray => "[F"
    case JdoubleArray => "[D"
    case Jthrowable => "Ljava/lang/Throwable;"
    case JniEnvPtr => ""
    case Void => "V"
    case NotJni => "(illegal)"
  }

  function PositionAllowedOf(t: CType): Position {
    if t in {Jobject, Jclass} then FirstOrLaterPosition
    else if t == JniEnvPtr then ZerothPosition
    else if t == Void then ReturnPosition
    else if t == NotJni then NotAnyPosition
    else SecondOrLaterPosition
  }

  function TypeFinalityOf(t: CType): TypeFinal {
    if t in {Jobject, Jarray, JobjectArray, Jthrowable, NotJni} then NotFinal
    else Final
  }

  function TypeNameOf(t: CType): string {
    match t
    case Jboolean => "jboolean"
    case Jbyte => "jbyte"
    case Jchar => "jchar"
    case Jshort => "jshort"
    case Jint => "jint"
    case Jlong => "jlong"
    case Jfloat => "jfloat"
    case Jdouble => "jdouble"
    case Jobject => "jobject"
    case Jclass => "jclass"
    case Jstring => "jstring"
    case Jarray => "jarray"
    case JobjectArray => "jobjectArray"
    case JbooleanArray => "jbooleanArray"
    case JbyteArray => "jbyteArray"
    case JcharArray => "jcharArray"
    case JshortArray => "jshortArray"
    case JintArray => "jintArray"
    case JlongArray => "jlongArray"
    case JfloatArray => "jfloatArray"
    case JdoubleArray => "jdoubleArray"
    case Jthrowable => "jthrowable"
    case JniEnvPtr => "JNIEnv*"
    case Void => "void"
    case NotJni => "(illegal)"
  }

  /** The row of a type, accessible without its static type. */
  function Reify(t: CType): ReifiedJniTypeTrait {
    ReifiedJniTypeTrait(NativeKindOf(t), TypeDescriptorOf(t), PositionAllowedOf(t), TypeFinalityOf(t), TypeNameOf(t))
  }

  /** The eight primitive types. */
  predicate IsPrimitive(t: CType) {
    t in {Jboolean, Jbyte, Jchar, Jshort, Jint, Jlong, Jfloat, Jdouble}
  }

  /** The primitive type of a letter, and the type of arrays of it. */
  function PrimitiveOf(c: char): CType
    requires IsPrimitiveLetter(c)
  {
    match c
    case 'Z' => Jboolean
    case 'B' => Jbyte
    case 'C' => Jchar
    case 'S' => Jshort
    case 'I' => Jint
    case 'J' => Jlong
    case 'F' => Jfloat
    case 'D' => Jdouble
  }

  function PrimitiveArrayOf(c: char): CType
    requires IsPrimitiveLetter(c)
  {
    match c
    case 'Z' => JbooleanArray
    case 'B' => JbyteArray
    case 'C' => JcharArray
    case 'S' => JshortArray
    case 'I' => JintArray
    case 'J' => JlongArray
    case 'F' => JfloatArray
    case 'D' => JdoubleArray
  }

  /** Types passed as references to managed objects. */
  predicate IsReference(t: CType) {
    !IsPrimitive(t) && t !in {JniEnvPtr, Void, NotJni}
  }

  predicate IsFinal(t: CType) {
    TypeFinalityOf(t) == Final
  }

  /** The rows of the table, in the order in which the macro lists them. */
  const TRAIT_TABLE: seq<CType> :=
    [Jboolean, Jbyte, Jchar, Jshort, Jint, Jlong, Jfloat, Jdouble,
     Jobject, Jclass, Jstring, Jarray, JobjectArray,
     JbooleanArray, JbyteArray, JcharArray, JshortArray,
     JintArray, JlongArray, JfloatArray, JdoubleArray,
     Jthrowable, JniEnvPtr, Void]

  /** The condition under which a row of the table is an exact match. */
  predicate MatchesExactly(descriptor: string, t: CType) {
    descriptor == TypeDescriptorOf(t) && NativeKindOf(t).Rank() >= NormalNative.Rank()
  }

  /** The first of the leading n rows that matches exactly. */
  function FirstExact(d: string, n: nat): (exact: Option<CType>)
    requires n <= |TRAIT_TABLE|
  {
    if n == 0 then None
    else
      var earlier := FirstExact(d, n - 1);
      if earlier.Some? then earlier
      else if MatchesExactly(d, TRAIT_TABLE[n - 1]) then Some(TRAIT_TABLE[n - 1])
      else None
  }

  /** The type whose trait MostSimilarTypeDescriptor returns. */
  function MostSimilarType(d: string): Option<CType> {
    var exact := FirstExact(d, |TRAIT_TABLE|);
    if exact.Some? then exact
    else if |d| >= 1 && d[0] == 'L' then Some(Jobject)
    else if |d| >= 2 && (d[..2] == "[[" || d[..2] == "[L") then Some(JobjectArray)
    else None
  }

  function MostSimilarTypeDescriptor(d: string): Option<ReifiedJniTypeTrait> {
    match MostSimilarType(d)
    case None => None
    case Some(t) => Some(Reify(t))
  }

  // ------------------------------------------------------------------ facts about the table

  lemma RowOf(t: CType) returns (i: nat)
    requires t != NotJni
    ensures i < |TRAIT_TABLE| && TRAIT_TABLE[i] == t
  {
    assert t in TRAIT_TABLE;
    i :| i < |TRAIT_TABLE| && TRAIT_TABLE[i] == t;
  }

  /** Only jobject and jarray share a descriptor. */
  lemma DescriptorsDiffer(a: CType, b: CType)
    requires a != b && NotJni !in {a, b}
    requires TypeDescriptorOf(a) == TypeDescriptorOf(b)
    ensures a in {Jobject, Jarray} && b in {Jobject, Jarray}
  {
    var x, y := TypeDescriptorOf(a), TypeDescriptorOf(b);
    assert |x| == |y|;
    assert |x| > 0 ==> x[0] == y[0];
    assert |x| > 1 ==> x[1] == y[1];
    assert |x| > 11 ==> x[11] == y[11];
  }

  /** The first character of a descriptor tells primitives, classes and arrays apart. */
  lemma DescriptorStart(t: CType)
    requires t !in {JniEnvPtr, NotJni}
    ensures var d := TypeDescriptorOf(t);
            && |d| > 0
            && (IsPrimitive(t) <==> IsPrimitiveLetter(d[0]))
            && (t == Void <==> d[0] == 'V')
            && (t in {Jobject, Jclass, Jstring, Jarray, Jthrowable} <==> d[0] == 'L')
            && (d[0] == '[' ==> |d| > 1 && (d[1] in {'[', 'L'} <==> t == JobjectArray))
  {
  }

  lemma ClassDescriptorsInGrammar()
    ensures IsTypeDescriptor("Ljava/lang/Object;")
    ensures IsTypeDescriptor("Ljava/lang/Class;")
    ensures IsTypeDescriptor("Ljava/lang/String;")
    ensures IsTypeDescriptor("Ljava/lang/Throwable;")
  {
  }

  /** The descriptors in the grammar are those of all types but JNIEnv*, which has no descriptor. */
  lemma DescriptorInGrammar(t: CType)
    ensures IsReturnDescriptor(TypeDescriptorOf(t)) <==> t !in {JniEnvPtr, NotJni}
    ensures IsTypeDescriptor(TypeDescriptorOf(t)) <==> t !in {JniEnvPtr, NotJni, Void}
  {
    ClassDescriptorsInGrammar();
    if t == JobjectArray {
      assert "[Ljava/lang/Object;"[1..] == "Ljava/lang/Object;";
    } else if !IsPrimitive(t) && t !in {Void, Jobject, Jclass, Jstring, Jarray, Jthrowable, JniEnvPtr, NotJni} {
      var d := TypeDescriptorOf(t);
      assert |d| == 2 && d[0] == '[' && IsPrimitiveLetter(d[1]);
      assert d[1..] == [d[1]];
      assert IsTypeDescriptor([d[1]]);
    }
  }

  // --------------------------------------------------------------------- the table by its rows

  /** The columns make up the rows that the macro lists. */
  lemma NarrowRows()
    ensures Reify(Jboolean) == ReifiedJniTypeTrait(CriticalNative, "Z", SecondOrLaterPosition, Final, "jboolean")
    ensures Reify(Jbyte) == ReifiedJniTypeTrait(CriticalNative, "B", SecondOrLaterPosition, Final, "jbyte")
    ensures Reify(Jchar) == ReifiedJniTypeTrait(CriticalNative, "C", SecondOrLaterPosition, Final, "jchar")
    ensures Reify(Jshort) == ReifiedJniTypeTrait(CriticalNative, "S", SecondOrLaterPosition, Final, "jshort")
    ensures Reify(Jint) == ReifiedJniTypeTrait(CriticalNative, "I", SecondOrLaterPosition, Final, "jint")
  {
  }

  lemma WideRows()
    ensures Reify(Jlong) == ReifiedJniTypeTrait(CriticalNative, "J", SecondOrLaterPosition, Final, "jlong")
    ensures Reify(Jfloat) == ReifiedJniTypeTrait(CriticalNative, "F", SecondOrLaterPosition, Final, "jfloat")
    ensures Reify(Jdouble) == ReifiedJniTypeTrait(CriticalNative, "D", SecondOrLaterPosition, Final, "jdouble")
    ensures Reify(Void) == ReifiedJniTypeTrait(CriticalNative, "V", ReturnPosition, Final, "void")
  {
  }

  lemma ClassRows()
    ensures Reify(Jobject) == ReifiedJniTypeTrait(FastNative, "Ljava/lang/Object;", FirstOrLaterPosition, NotFinal, "jobject")
    ensures Reify(Jclass) == ReifiedJniTypeTrait(FastNative, "Ljava/lang/Class;", FirstOrLaterPosition, Final, "jclass")
    ensures Reify(Jstring) == ReifiedJniTypeTrait(FastNative, "Ljava/lang/String;", SecondOrLaterPosition, Final, "jstring")
    ensures Reify(Jthrowable) ==
              ReifiedJniTypeTrait(FastNative, "Ljava/lang/Throwable;", SecondOrLaterPosition, NotFinal, "jthrowable")
  {
  }

  lemma OtherRows()
    ensures Reify(Jarray) == ReifiedJniTypeTrait(FastNative, "Ljava/lang/Object;", SecondOrLaterPosition, NotFinal, "jarray")
    ensures Reify(JobjectArray) ==
              ReifiedJniTypeTrait(FastNative, "[Ljava/lang/Object;", SecondOrLaterPosition, NotFinal, "jobjectArray")
    ensures Reify(JniEnvPtr) ==
              ReifiedJniTypeTrait(NormalJniCallingConventionParameter, "", ZerothPosition, Final, "JNIEnv*")
    ensures Reify(NotJni) == ReifiedJniTypeTrait(NotJniKind, "(illegal)", NotAnyPosition, NotFinal, "(illegal)")
  {
  }

  lemma NarrowArrayRows()
    ensures Reify(JbooleanArray) == ReifiedJniTypeTrait(FastNative, "[Z", SecondOrLaterPosition, Final, "jbooleanArray")
    ensures Reify(JbyteArray) == ReifiedJniTypeTrait(FastNative, "[B", SecondOrLaterPosition, Final, "jbyteArray")
    ensures Reify(JcharArray) == ReifiedJniTypeTrait(FastNative, "[C", SecondOrLaterPosition, Final, "jcharArray")
    ensures Reify(JshortArray) == ReifiedJniTypeTrait(FastNative, "[S", SecondOrLaterPosition, Final, "jshortArray")
  {
  }

  lemma WideArrayRows()
    ensures Reify(JintArray) == ReifiedJniTypeTrait(FastNative, "[I", SecondOrLaterPosition, Final, "jintArray")
    ensures Reify(JlongArray) == ReifiedJniTypeTrait(FastNative, "[J", SecondOrLaterPosition, Final, "jlongArray")
    ensures Reify(JfloatArray) == ReifiedJniTypeTrait(FastNative, "[F", SecondOrLaterPosition, Final, "jfloatArray")
    ensures Reify(JdoubleArray) == ReifiedJniTypeTrait(FastNative, "[D", SecondOrLaterPosition, Final, "jdoubleArray")
  {
  }

  /** The kinds of types, one by one. */
  lemma KindsOfTypes(t: CType)
    ensures IsPrimitive(t) <==>
              t == Jboolean || t == Jbyte || t == Jchar || t == Jshort || t == Jint || t == Jlong || t == Jfloat || t == Jdouble
    ensures IsReference(t) <==>
              || t == Jobject || t == Jclass || t == Jstring || t == Jarray || t == JobjectArray || t == Jthrowable
              || t == JbooleanArray || t == JbyteArray || t == JcharArray || t == JshortArray
              || t == JintArray || t == JlongArray || t == JfloatArray || t == JdoubleArray
    ensures IsFinal(t) <==> t != Jobject && t != Jarray && t != JobjectArray && t != Jthrowable && t != NotJni
  {
  }

  // ----------------------------------------------------------------- facts about the lookup

  lemma {:induction false} FirstExactSound(d: string, n: nat)
    requires n <= |TRAIT_TABLE|
    ensures FirstExact(d, n).Some? ==> MatchesExactly(d, FirstExact(d, n).value)
    ensures FirstExact(d, n).None? ==> forall i | 0 <= i < n :: !MatchesExactly(d, TRAIT_TABLE[i])
  {
    hide MatchesExactly;
    if n > 0 {
      FirstExactSound(d, n - 1);
    }
  }

  lemma {:induction false} FirstExactEarliest(d: string, i: nat, n: nat)
    requires i < n <= |TRAIT_TABLE| && MatchesExactly(d, TRAIT_TABLE[i])
    ensures FirstExact(d, n).Some? && FirstExact(d, n).value in TRAIT_TABLE[..i + 1]
    decreases n
  {
    if i < n - 1 {
      FirstExactEarliest(d, i, n - 1);
    } else if FirstExact(d, i).Some? {
      FirstExactInPrefix(d, i);
    }
  }

  lemma {:induction false} FirstExactInPrefix(d: string, n: nat)
    requires n <= |TRAIT_TABLE| && FirstExact(d, n).Some?
    ensures FirstExact(d, n).value in TRAIT_TABLE[..n]
  {
    if FirstExact(d, n - 1).Some? {
      FirstExactInPrefix(d, n - 1);
    }
  }

  /** The lookup never answers jarray: jobject comes first with the same descriptor. */
  lemma LookupSkipsJarray(d: string)
    ensures FirstExact(d, |TRAIT_TABLE|) != Some(Jarray)
  {
    FirstExactSound(d, |TRAIT_TABLE|);
    if MatchesExactly(d, Jarray) {
      var i := 8;
      assert TRAIT_TABLE[i] == Jobject;
      assert Jarray !in TRAIT_TABLE[..i + 1];
      FirstExactEarliest(d, i, |TRAIT_TABLE|);
    }
  }

  /** A row that matches exactly decides the lookup. */
  lemma ExactRowDecides(d: string, t: CType)
    requires MatchesExactly(d, t) && t != Jarray
    ensures FirstExact(d, |TRAIT_TABLE|) == Some(t)
  {
    hide TypeDescriptorOf;
    FirstExactSound(d, |TRAIT_TABLE|);
    LookupSkipsJarray(d);
    var i := RowOf(t);
    var u := FirstExact(d, |TRAIT_TABLE|).value;
    if u != t {
      DescriptorsDiffer(u, t);
    }
  }

  /**
   Looking up the canonical descriptor of a type finds that type, with two exceptions: that of
   jarray finds jobject, and nothing is found for JNIEnv*.
   */
  lemma SimilarToOwnDescriptor(t: CType)
    ensures MostSimilarType(TypeDescriptorOf(t)) ==
              match t
              case Jarray => Some(Jobject)
              case JniEnvPtr => None
              case NotJni => None
              case _ => Some(t)
  {
    var d := TypeDescriptorOf(t);
    if t == Jarray {
      assert d == TypeDescriptorOf(Jobject);
      ExactRowDecides(d, Jobject);
    } else if t in {JniEnvPtr, NotJni} {
      DescriptorsOutsideTheGrammar();
      hide TypeDescriptorOf;
      FirstExactSound(d, |TRAIT_TABLE|);
    } else {
      hide TypeDescriptorOf;
      ExactRowDecides(d, t);
    }
  }

  lemma DescriptorsOutsideTheGrammar()
    ensures TypeDescriptorOf(JniEnvPtr) == ""
    ensures |TypeDescriptorOf(NotJni)| > 1 && TypeDescriptorOf(NotJni)[0] == '('
    ensures forall u :: !MatchesExactly(TypeDescriptorOf(JniEnvPtr), u) && !MatchesExactly(TypeDescriptorOf(NotJni), u)
  {
    forall u ensures !MatchesExactly("", u) && !MatchesExactly(TypeDescriptorOf(NotJni), u) {
      if u !in {JniEnvPtr, NotJni} {
        DescriptorStart(u);
      }
    }
  }

  /** The answer of the lookup, whatever the descriptor. */
  lemma SimilarCases(d: string, t: CType)
    requires MostSimilarType(d) == Some(t)
    ensures t !in {Jarray, JniEnvPtr, NotJni}
    ensures d == TypeDescriptorOf(t)
            || (t == Jobject && |d| >= 1 && d[0] == 'L')
            || (t == JobjectArray && |d| >= 2 && d[0] == '[' && d[1] in {'[', 'L'})
  {
    hide TypeDescriptorOf;
    FirstExactSound(d, |TRAIT_TABLE|);
    LookupSkipsJarray(d);
    if FirstExact(d, |TRAIT_TABLE|).None? && d[0] != 'L' {
      assert d[..2] == [d[0], d[1]];
    }
  }

  lemma SimilarToClass(d: string)
    requires |d| >= 1 && d[0] == 'L'
    ensures MostSimilarType(d).Some?
    ensures MostSimilarType(d).value in {Jobject, Jclass, Jstring, Jthrowable}
  {
    SimilarCases(d, MostSimilarType(d).value);
    DescriptorStart(MostSimilarType(d).value);
  }

  lemma SimilarToArray(d: string)
    requires |d| >= 2 && d[0] == '[' && d[1] in {'[', 'L'}
    ensures MostSimilarType(d) == Some(JobjectArray)
  {
    assert d[..2] == [d[0], d[1]];
    FirstExactSound(d, |TRAIT_TABLE|);
    SimilarCases(d, MostSimilarType(d).value);
    DescriptorStart(MostSimilarType(d).value);
  }

  /** Whatever the parser yields has a most similar type. */
  lemma ParsedDescriptorHasSimilar(d: string)
    requires IsReturnDescriptor(d)
    ensures MostSimilarType(d).Some?
  {
    if d == "V" {
      SimilarToOwnDescriptor(Void);
    } else if d[0] == 'L' {
      SimilarToClass(d);
    } else if d[0] == '[' {
      assert IsTypeDescriptor(d[1..]);
      if d[1] in {'[', 'L'} {
        SimilarToArray(d);
      } else {
        var t := PrimitiveArrayOf(d[1]);
        assert d == [d[0], d[1]] == TypeDescriptorOf(t);
        SimilarToOwnDescriptor(t);
      }
    } else {
      var t := PrimitiveOf(d[0]);
      assert d == [d[0]] == TypeDescriptorOf(t);
      SimilarToOwnDescriptor(t);
    }
  }

  /** The traits of different types differ in some field. */
  lemma ReifyInjective(a: CType, b: CType)
    requires Reify(a) == Reify(b)
    ensures a == b
  {
    hide TypeDescriptorOf;
    hide TypeNameOf;
    if a != b {
      DescriptorsDiffer(a, b);
    }
  }
}
