/**
 The grammar of JNI type signatures as a set of strings, with no reference to how it is parsed.
 It is the "Type Signatures" table of Chapter 3 of the JNI specification, except that a class
 name is any non-empty run of characters other than `(`, `)`, `[` and `;`.
 */
module Grammar {

  predicate IsPrimitiveLetter(c: char) {
    c in {'Z', 'B', 'C', 'S', 'I', 'J', 'F', 'D'}
  }

  /** The characters that may not occur between the `L` and the `;` of a class descriptor. */
  predicate EndsClassName(c: char) {
    c in {'(', ')', '[', ';'}
  }

  /** T ::= primitive letter | L name ; | [ T */
  predicate IsTypeDescriptor(t: string) {
    |t| > 0 &&
    if IsPrimitiveLetter(t[0]) then
      |t| == 1
    else if t[0] == 'L' then
      && |t| >= 3
      && t[|t| - 1] == ';'
      && forall i | 1 <= i < |t| - 1 :: !EndsClassName(t[i])
    else
      t[0] == '[' && IsTypeDescriptor(t[1..])
  }

  predicate IsReturnDescriptor(t: string) {
    t == "V" || IsTypeDescriptor(t)
  }

  /** A decomposed method signature: one descriptor per parameter, and one for the result. */
  datatype Signature = Signature(args: seq<string>, ret: string) {

    ghost predicate WellFormed() {
      && (forall i | 0 <= i < |args| :: IsTypeDescriptor(args[i]))
      && IsReturnDescriptor(ret)
    }

    function Print(): string {
      "(" + (Concat(args) + ")" + ret)
    }
  }

  function Concat(parts: seq<string>): (s: string) {
    if parts == [] then "" else parts[0] + Concat(parts[1..])
  }

  /** The language of method signatures: `(` T* `)` (T | `V`). */
  ghost predicate IsSignature(s: string) {
    exists sig: Signature :: sig.WellFormed() && s == sig.Print()
  }

  lemma {:induction false} ConcatAppend(parts: seq<string>, last: string)
    ensures Concat(parts + [last]) == Concat(parts) + last
  {
    if parts == [] {
      assert parts + [last] == [last];
      assert Concat([last]) == last + Concat([]);
    } else {
      assert (parts + [last])[1..] == parts[1..] + [last];
      ConcatAppend(parts[1..], last);
    }
  }

  // --------------------------------------------------------------- the grammar, written out

  /** The class names between `L` and `;`: not empty, and free of the four characters that end one. */
  lemma ClassDescriptorForm(name: string)
    ensures IsTypeDescriptor("L" + name + ";") <==>
              && name != ""
              && forall i | 0 <= i < |name| ::
                   name[i] != '(' && name[i] != ')' && name[i] != '[' && name[i] != ';'
  {
    var t := "L" + name + ";";
    assert forall i | 0 <= i < |name| :: t[i + 1] == name[i];
    assert forall i | 1 <= i < |t| - 1 :: t[i] == name[i - 1];
  }

  lemma ArrayDescriptorForm(component: string)
    ensures IsTypeDescriptor("[" + component) <==> IsTypeDescriptor(component)
  {
    assert ("[" + component)[1..] == component;
  }

  /** Every type descriptor is a primitive letter, a class or an array. */
  lemma DescriptorForms(t: string)
    ensures IsTypeDescriptor(t) <==>
              || t in {"Z", "B", "C", "S", "I", "J", "F", "D"}
              || (exists name: string :: t == "L" + name + ";" && name != "" && forall i | 0 <= i < |name| ::
                    name[i] != '(' && name[i] != ')' && name[i] != '[' && name[i] != ';')
              || (exists component: string :: t == "[" + component && IsTypeDescriptor(component))
  {
    if t != "" && t[0] == 'L' {
      if IsTypeDescriptor(t) {
        var name := t[1..|t| - 1];
        assert t == "L" + name + ";";
        ClassDescriptorForm(name);
      }
      if name: string :| t == "L" + name + ";" {
        ClassDescriptorForm(name);
      }
    } else if t != "" && t[0] == '[' {
      assert t == "[" + t[1..];
    } else if t != "" {
      LetterForm(t);
    }
  }

  lemma LetterForm(t: string)
    requires t != "" && t[0] !in {'L', '['}
    ensures IsTypeDescriptor(t) <==> t in {"Z", "B", "C", "S", "I", "J", "F", "D"}
  {
    if |t| == 1 {
      assert t == [t[0]];
    }
  }

  lemma {:induction false} ConcatForms(parts: seq<string>, more: seq<string>, t: string)
    ensures Concat([]) == "" && Concat([t]) == t
    ensures Concat(parts + more) == Concat(parts) + Concat(more)
  {
    if parts == [] {
      assert parts + more == more;
    } else {
      assert (parts + more)[1..] == parts[1..] + more;
      ConcatForms(parts[1..], more, t);
    }
  }

  /** A well-formed signature: descriptors in parentheses, and a descriptor or `V` for the result. */
  lemma SignatureForm(sig: Signature)
    ensures sig.Print() == "(" + Concat(sig.args) + ")" + sig.ret
    ensures sig.WellFormed() <==>
              && (forall i | 0 <= i < |sig.args| :: IsTypeDescriptor(sig.args[i]))
              && (sig.ret == "V" || IsTypeDescriptor(sig.ret))
  {
    assert "(" + Concat(sig.args) + ")" + sig.ret == "(" + (Concat(sig.args) + ")" + sig.ret);
  }
}
