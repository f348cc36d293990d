/**
 The descriptor and signature parsers: executable specifications over strings, the two parser
 methods over string views that implement them, and the theorems tying them to the grammar.
 */
module Parser {
  import opened Wrappers
  import opened ConstexprContainers
  import opened Grammar

  // ---------------------------------------------------------------- specification functions

  /** Position just past the first `;` at or after i, or 0 if `(`, `)`, `[` or the end comes first. */
  function ClassEnd(s: string, i: nat): (end: nat)
    requires i <= |s|
    decreases |s| - i
  {
    if i == |s| then 0
    else if s[i] == ';' then i + 1
    else if EndsClassName(s[i]) then 0
    else ClassEnd(s, i + 1)
  }

  /** Length of the type descriptor at the front of s, or 0 if there is none. */
  function TypeLength(s: string): (n: nat)
    ensures n <= |s|
  {
    if s == [] then 0
    else if IsPrimitiveLetter(s[0]) then 1
    else if s[0] == 'L' then
      ClassEndInside(s, 0);
      var end := ClassEnd(s, 0);
      if end <= 2 then 0 else end
    else if s[0] == '[' then
      var n := TypeLength(s[1..]);
      if n == 0 then 0 else n + 1
    else 0
  }

  /** As TypeLength, but `V` is a descriptor as well when `allowVoid` is set. */
  function DescriptorLength(s: string, allowVoid: bool): (n: nat)
    ensures n <= |s|
  {
    if allowVoid && s != [] && s[0] == 'V' then 1 else TypeLength(s)
  }

  /** After `)`: exactly one descriptor, `V` allowed, and nothing behind it. */
  function ParseReturn(args: seq<string>, s: string): Option<Signature> {
    if s != [] && DescriptorLength(s, true) == |s| then Some(Signature(args, s)) else None
  }

  /** After `(`: parameters up to `)`; `args` are those already read. */
  function ParseParameters(args: seq<string>, s: string): Option<Signature>
    decreases |s|
  {
    if s == [] then None
    else if s[0] == ')' then ParseReturn(args, s[1..])
    else
      var n := TypeLength(s);
      if n == 0 then None else ParseParameters(args + [s[..n]], s[n..])
  }

  function ParseSignature(s: string): Option<Signature> {
    if s != [] && s[0] == '(' then ParseParameters([], s[1..]) else None
  }

  // ------------------------------------------------------- descriptors against the grammar

  lemma {:induction false} ClassEndInside(s: string, i: nat)
    requires i <= |s|
    ensures ClassEnd(s, i) <= |s|
    ensures ClassEnd(s, i) != 0 ==>
              && i < ClassEnd(s, i)
              && s[ClassEnd(s, i) - 1] == ';'
              && forall j | i <= j < ClassEnd(s, i) - 1 :: !EndsClassName(s[j])
    decreases |s| - i
  {
    if i < |s| && !EndsClassName(s[i]) {
      ClassEndInside(s, i + 1);
    }
  }

  lemma {:induction false} ClassEndFinds(s: string, i: nat, end: nat)
    requires i < end <= |s| && s[end - 1] == ';'
    requires forall j | i <= j < end - 1 :: !EndsClassName(s[j])
    ensures ClassEnd(s, i) == end
    decreases |s| - i
  {
    if i < end - 1 {
      ClassEndFinds(s, i + 1, end);
    }
  }

  /** The prefix that the parser takes is the one and only prefix that is a type descriptor. */
  lemma {:induction false} TypeLengthIffDescriptor(s: string, n: nat)
    requires 0 < n <= |s|
    ensures TypeLength(s) == n <==> IsTypeDescriptor(s[..n])
  {
    if s[0] == 'L' {
      ClassEndInside(s, 0);
      var t := s[..n];
      if IsTypeDescriptor(t) {
        forall j | 0 <= j < n - 1 ensures !EndsClassName(s[j]) {
          assert s[j] == t[j];
        }
        ClassEndFinds(s, 0, n);
      }
    } else if s[0] == '[' {
      if n == 1 {
        assert s[..1][1..] == "";
      } else {
        assert s[..n][1..] == s[1..][..n - 1];
        TypeLengthIffDescriptor(s[1..], n - 1);
      }
    }
  }

  /** Characters behind a descriptor do not change how it is read. */
  lemma TypeLengthOfPrefix(t: string, rest: string)
    requires IsTypeDescriptor(t)
    ensures TypeLength(t + rest) == |t|
  {
    assert (t + rest)[..|t|] == t;
    TypeLengthIffDescriptor(t + rest, |t|);
  }

  // -------------------------------------------------------- signatures against the grammar

  lemma ConcatPrepend(t: string, parts: seq<string>, tail: string)
    ensures Concat([t] + parts) + tail == t + (Concat(parts) + tail)
  {
    assert ([t] + parts)[1..] == parts;
  }

  lemma EmptyConcat(tail: string)
    ensures Concat([]) + tail == tail
  {
  }

  lemma {:induction false} ParseParametersSound(args: seq<string>, s: string)
    returns (more: seq<string>, ret: string)
    requires ParseParameters(args, s).Some?
    ensures ParseParameters(args, s) == Some(Signature(args + more, ret))
    ensures forall i | 0 <= i < |more| :: IsTypeDescriptor(more[i])
    ensures IsReturnDescriptor(ret)
    ensures s == Concat(more) + (")" + ret)
    decreases |s|
  {
    hide TypeLength, DescriptorLength, IsTypeDescriptor, IsReturnDescriptor, Concat;
    if s[0] == ')' {
      more, ret := [], s[1..];
      assert args + more == args && s == [')'] + s[1..];
      EmptyConcat(")" + ret);
      ReturnSound(ret);
    } else {
      var n := TypeLength(s);
      TypeLengthIffDescriptor(s, n);
      var rest;
      rest, ret := ParseParametersSound(args + [s[..n]], s[n..]);
      more := [s[..n]] + rest;
      assert args + more == args + [s[..n]] + rest;
      assert s == s[..n] + s[n..];
      ConcatPrepend(s[..n], rest, ")" + ret);
    }
  }

  lemma ReturnSound(s: string)
    requires s != [] && DescriptorLength(s, true) == |s|
    ensures IsReturnDescriptor(s)
  {
    if s[0] != 'V' {
      TypeLengthIffDescriptor(s, |s|);
      assert s[..|s|] == s;
    }
  }

  lemma {:induction false} ParseParametersComplete(args: seq<string>, more: seq<string>, ret: string)
    requires forall i | 0 <= i < |more| :: IsTypeDescriptor(more[i])
    requires IsReturnDescriptor(ret)
    ensures ParseParameters(args, Concat(more) + ")" + ret) == Some(Signature(args + more, ret))
    decreases |more|
  {
    var s := Concat(more) + ")" + ret;
    if more == [] {
      assert s[1..] == ret;
      assert args + more == args;
      if ret != "V" {
        TypeLengthIffDescriptor(ret, |ret|);
        assert ret[..|ret|] == ret;
      }
    } else {
      var t, rest := more[0], Concat(more[1..]) + ")" + ret;
      assert s == t + rest;
      TypeLengthOfPrefix(t, rest);
      assert s[..|t|] == t && s[|t|..] == rest && s[0] == t[0];
      assert args + more == args + [t] + more[1..];
      ParseParametersComplete(args + [t], more[1..], ret);
    }
  }

  lemma ParsedPrints(s: string)
    requires ParseSignature(s).Some?
    ensures ParseSignature(s).value.WellFormed() && s == ParseSignature(s).value.Print()
  {
    hide ParseParameters, IsTypeDescriptor, IsReturnDescriptor, Concat;
    var more, ret := ParseParametersSound([], s[1..]);
    assert [] + more == more;
    assert s == "(" + s[1..];
    assert Concat(more) + (")" + ret) == Concat(more) + ")" + ret;
  }

  lemma PrintedParses(sig: Signature)
    requires sig.WellFormed()
    ensures ParseSignature(sig.Print()) == Some(sig)
  {
    assert sig.Print()[1..] == Concat(sig.args) + ")" + sig.ret;
    ParseParametersComplete([], sig.args, sig.ret);
    assert [] + sig.args == sig.args;
  }

  /**
   The parser and the printer are inverse to each other: the parser returns `sig` on exactly one
   string, the one `sig` prints to, and it does so for every well-formed `sig`.
   */
  lemma ParseIffPrint(s: string, sig: Signature)
    ensures ParseSignature(s) == Some(sig) <==> sig.WellFormed() && s == sig.Print()
  {
    if ParseSignature(s) == Some(sig) {
      ParsedPrints(s);
    }
    if sig.WellFormed() && s == sig.Print() {
      PrintedParses(sig);
    }
  }

  /** The language of method signatures: `(` T* `)` (T or `V`). */
  lemma SignaturesWrittenOut(s: string)
    ensures IsSignature(s) <==> exists args: seq<string>, ret: string ::
              && s == "(" + Concat(args) + ")" + ret
              && (forall i | 0 <= i < |args| :: IsTypeDescriptor(args[i]))
              && (ret == "V" || IsTypeDescriptor(ret))
  {
    hide IsTypeDescriptor, Concat;
    if IsSignature(s) {
      var sig: Signature :| sig.WellFormed() && s == sig.Print();
      SignatureForm(sig);
      assert s == "(" + Concat(sig.args) + ")" + sig.ret;
    }
    if args: seq<string>, ret: string :|
      && s == "(" + Concat(args) + ")" + ret
      && (forall i | 0 <= i < |args| :: IsTypeDescriptor(args[i]))
      && (ret == "V" || IsTypeDescriptor(ret))
    {
      SignatureForm(Signature(args, ret));
      assert Signature(args, ret).WellFormed() && s == Signature(args, ret).Print();
    }
  }

  /** ParseSignatureAsList accepts exactly the language of method signatures. */
  lemma ParserAcceptsExactlySignatures(s: string)
    ensures ParseSignature(s).Some? <==> IsSignature(s)
  {
    if ParseSignature(s).Some? {
      ParseIffPrint(s, ParseSignature(s).value);
    }
    if IsSignature(s) {
      var sig: Signature :| sig.WellFormed() && s == sig.Print();
      ParseIffPrint(s, sig);
    }
  }

  /** A signature decomposes in one way only. */
  lemma PrintInjective(a: Signature, b: Signature)
    requires a.WellFormed() && b.WellFormed() && a.Print() == b.Print()
    ensures a == b
  {
    ParseIffPrint(a.Print(), a);
    ParseIffPrint(b.Print(), b);
  }

  lemma {:induction false} NothingBehindSignature(args: seq<string>, s: string, extra: string)
    requires ParseParameters(args, s).Some? && extra != []
    ensures ParseParameters(args, s + extra).None?
    decreases |s|
  {
    if s[0] == ')' {
      var ret := s[1..];
      assert (s + extra)[1..] == ret + extra;
      if ret[0] != 'V' {
        assert ret[..|ret|] == ret;
        TypeLengthIffDescriptor(ret, |ret|);
        TypeLengthOfPrefix(ret, extra);
      }
    } else {
      var n := TypeLength(s);
      TypeLengthIffDescriptor(s, n);
      assert s + extra == s[..n] + (s[n..] + extra);
      TypeLengthOfPrefix(s[..n], s[n..] + extra);
      NothingBehindSignature(args + [s[..n]], s[n..], extra);
      assert (s + extra)[..n] == s[..n] && (s + extra)[n..] == s[n..] + extra;
    }
  }

  lemma AcceptedPrefixFree(s: string, extra: string)
    requires ParseSignature(s).Some? && ParseSignature(s + extra).Some?
    ensures extra == []
  {
    if extra != [] {
      assert (s + extra)[1..] == s[1..] + extra;
      NothingBehindSignature([], s[1..], extra);
    }
  }

  /** No signature is a proper prefix of another. */
  lemma SignaturesPrefixFree(s: string, t: string)
    requires IsSignature(s) && IsSignature(t) && s <= t
    ensures s == t
  {
    ParserAcceptsExactlySignatures(s);
    ParserAcceptsExactlySignatures(t);
    assert t == s + t[|s|..];
    AcceptedPrefixFree(s, t[|s|..]);
  }

  /** The scan stops at the first semicolon unless one of the other three characters comes first. */
  lemma ClassEndIffFirstSemicolon(s: string)
    ensures ClassEnd(s, 0) <= |s|
    ensures forall k | 0 <= k < |s| :: ClassEnd(s, 0) == k + 1 <==>
              && s[k] == ';'
              && forall i | 0 <= i < k :: s[i] != '(' && s[i] != ')' && s[i] != '[' && s[i] != ';'
  {
    ClassEndInside(s, 0);
    forall k | 0 <= k < |s| && s[k] == ';' && forall i | 0 <= i < k :: !EndsClassName(s[i])
      ensures ClassEnd(s, 0) == k + 1
    {
      ClassEndFinds(s, 0, k + 1);
    }
  }

  /** The length of the leading descriptor, where `V` counts as one exactly if it is allowed. */
  lemma DescriptorLengthIff(s: string, allowVoid: bool, n: nat)
    requires 0 < n <= |s|
    ensures DescriptorLength(s, allowVoid) == n <==> IsTypeDescriptor(s[..n]) || (allowVoid && s[..n] == "V")
  {
    TypeLengthIffDescriptor(s, n);
    if s[..n] == "V" {
      assert s[0] == s[..n][0];
    }
    if s[0] == 'V' && n == 1 {
      assert s[..n] == [s[0]];
    }
    assert s[..n][0] == s[0];
  }

  // ----------------------------------------------------------------------------- the methods

  /** A non-empty view; the default-constructed node of the original is None here. */
  type JniDescriptorNode = v: ConstexprStringView | !v.Empty() witness View("V", 0, 1)

  predicate IsValidJniDescriptorStart(c: char) {
    c in {'V', 'Z', 'B', 'C', 'S', 'I', 'J', 'F', 'D', 'L', '[', '(', ')'}
  }

  datatype ParseTypeDescriptorResult =
    ParseTypeDescriptorResult(token: ConstexprStringView, remainder: ConstexprStringView)
  {
    predicate HasToken() {
      token.size > 0
    }

    /** The assertion in as_node is this precondition. */
    function AsNode(): (node: JniDescriptorNode)
      requires HasToken()
      ensures node == token
    {
      token
    }
  }

  /** The scan of an object descriptor for its `;`; 0 when the scan fails. */
  method ScanClassName(single: ConstexprStringView) returns (semicolonLen: nat)
    ensures semicolonLen == ClassEnd(single.Chars(), 0) <= single.size
    ensures forall k | 0 <= k < single.size :: semicolonLen == k + 1 <==>
              && single.Chars()[k] == ';'
              && forall i | 0 <= i < k ::
                   && single.Chars()[i] != '(' && single.Chars()[i] != ')'
                   && single.Chars()[i] != '[' && single.Chars()[i] != ';'
  {
    ghost var s := single.Chars();
    ClassEndIffFirstSemicolon(s);
    var i := 0;
    while i < single.size
      invariant i <= single.size
      invariant ClassEnd(s, 0) == ClassEnd(s, i)
    {
      var d := single.At(i);
      if d == ')' || d == '(' || d == '[' {
        return 0;
      }
      if d == ';' {
        return i + 1;
      }
      i := i + 1;
    }
    return 0;
  }

  /**
   Splits one type descriptor off the front of a view.  An empty view yields an empty token; on
   any other view the method fails exactly when no descriptor starts there, and otherwise token
   and remainder partition the view.
   */
  method ParseSingleTypeDescriptor(single: ConstexprStringView, allowVoid: bool)
    returns (res: Option<ParseTypeDescriptorResult>)
    ensures single.Empty() ==> res.Some? && !res.value.HasToken()
    ensures !single.Empty() ==> (res.Some? <==> DescriptorLength(single.Chars(), allowVoid) > 0)
    ensures !single.Empty() && res.Some? ==>
              && Partition(single, res.value.token, res.value.remainder)
              && res.value.token.size == DescriptorLength(single.Chars(), allowVoid)
    decreases single.size
  {
    if single.size == 0 {
      return Some(ParseTypeDescriptorResult(View("", 0, 0), View("", 0, 0)));
    }
    ghost var s := single.Chars();
    var remainder := single.SubstrFrom(1);
    var c := single.At(0);
    if !IsValidJniDescriptorStart(c) {
      return None;
    }
    if c == 'V' && !allowVoid {
      return None;
    }
    if c == 'V' || IsPrimitiveLetter(c) {
      return Some(ParseTypeDescriptorResult(single.Substr(0, 1), remainder));
    }
    if c == '[' {
      var component := ParseSingleTypeDescriptor(remainder, false);
      assert s[1..] == remainder.Chars();
      if component.None? || !component.value.HasToken() {
        return None;
      }
      var token := single.Substr(0, component.value.token.size + 1);
      return Some(ParseTypeDescriptorResult(token, component.value.remainder));
    }
    if c != 'L' {
      return None;  // a parenthesis starts no descriptor
    }
    var semicolonLen := ScanClassName(single);
    if semicolonLen == 0 {
      return None;
    }
    var token := single.Substr(0, semicolonLen);
    if token.size <= 2 {
      return None;
    }
    return Some(ParseTypeDescriptorResult(token, single.SubstrFrom(semicolonLen)));
  }

  datatype JniSignatureDescriptor =
    JniSignatureDescriptor(args: ConstexprVector<JniDescriptorNode>, ret: JniDescriptorNode)

  /** The texts of a list of nodes. */
  function Texts(nodes: seq<JniDescriptorNode>): (texts: seq<string>)
    ensures |texts| == |nodes|
    ensures forall i | 0 <= i < |nodes| :: texts[i] == nodes[i].Chars()
  {
    seq(|nodes|, i requires 0 <= i < |nodes| => nodes[i].Chars())
  }

  lemma TextsAppend(nodes: seq<JniDescriptorNode>, node: JniDescriptorNode)
    ensures Texts(nodes + [node]) == Texts(nodes) + [node.Chars()]
  {
  }

  /** A descriptor split off a view is the prefix of that length, and the rest is what follows. */
  lemma SplitChars(whole: ConstexprStringView, token: ConstexprStringView, rest: ConstexprStringView)
    requires Partition(whole, token, rest)
    ensures token.Chars() == whole.Chars()[..token.size] && rest.Chars() == whole.Chars()[token.size..]
  {
    assert token.size <= whole.size;
    assert forall i | 0 <= i < token.size :: token.Chars()[i] == whole.Chars()[i];
    assert forall i | 0 <= i < rest.size :: rest.Chars()[i] == whole.Chars()[token.size + i];
  }

  datatype State = Initial | ParsingParameters | ParsingReturnType | Completed

  /**
   The signature parser.  The checking macros instantiate kMaxSize with the length of the literal
   plus one; the push_back assertion already holds for every capacity of at least the length
   minus one, also on strings that are rejected later.
   */
  method ParseSignatureAsList(kMaxSize: nat, input: ConstexprStringView)
    returns (res: Option<JniSignatureDescriptor>)
    requires input.size <= kMaxSize + 1
    ensures res.Some? <==> ParseSignature(input.Chars()).Some?
    ensures res.Some? <==> IsSignature(input.Chars())
    ensures res.Some? ==>
              && fresh(res.value.args) && fresh(res.value.args.data)
              && res.value.args.Valid()
              && ParseSignature(input.Chars()) ==
                 Some(Signature(Texts(res.value.args.Elements()), res.value.ret.Chars()))
  {
    ghost var expected := ParseSignature(input.Chars());
    ParserAcceptsExactlySignatures(input.Chars());
    hide IsSignature;
    var list := new ConstexprVector<JniDescriptorNode>(kMaxSize);
    var ret: ConstexprStringView := View("", 0, 0);
    var state := Initial;
    var signature: ConstexprStringView := input;
    ghost var args: seq<string> := [];
    assert args == Texts(list.Elements());
    while !signature.Empty()
      invariant fresh(list) && fresh(list.data) && list.Valid() && list.data.Length == kMaxSize
      invariant args == Texts(list.Elements())
      invariant state.Initial? ==> signature == input && args == []
      invariant !state.Initial? ==> list.size + signature.size + 1 <= input.size
      invariant state.ParsingParameters? ==> ParseParameters(args, signature.Chars()) == expected
      invariant state.ParsingReturnType? ==> ParseReturn(args, signature.Chars()) == expected
      invariant state.Completed? ==> !ret.Empty()
      invariant state.Completed? && signature.Empty() ==> expected == Some(Signature(args, ret.Chars()))
      invariant state.Completed? && !signature.Empty() ==> expected == None
      decreases signature.size
    {
      ghost var s := signature.Chars();
      match state
      case Initial =>
        if signature.At(0) != '(' {
          return None;
        }
        state := ParsingParameters;
        signature := signature.SubstrFrom(1);
      case ParsingParameters =>
        if signature.At(0) == ')' {
          state := ParsingReturnType;
          signature := signature.SubstrFrom(1);
        } else {
          var parsed := ParseSingleTypeDescriptor(signature, false);
          if parsed.None? {
            return None;
          }
          var node := parsed.value.AsNode();
          SplitChars(signature, node, parsed.value.remainder);
          TextsAppend(list.Elements(), node);
          list.PushBack(node);
          args := args + [node.Chars()];
          signature := parsed.value.remainder;
        }
      case ParsingReturnType =>
        var parsed := ParseSingleTypeDescriptor(signature, true);
        if parsed.None? {
          return None;
        }
        ret := parsed.value.AsNode();
        SplitChars(signature, ret, parsed.value.remainder);
        signature := parsed.value.remainder;
        state := Completed;
      case Completed =>
        return None;
    }
    if !state.Completed? {
      return None;
    }
    return Some(JniSignatureDescriptor(list, ret));
  }
}
