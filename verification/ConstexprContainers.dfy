/**
 The constexpr building blocks of the signature checker: the read-only string view and the
 vector of fixed capacity.  Each X_ASSERT of the original is a precondition here, so verifying
 a caller discharges the assertion for every input.
 */
module ConstexprContainers {

  /** A window into a string literal.  The text is shared; only the bounds differ. */
  datatype View = View(text: string, start: nat, size: nat) {

    predicate Valid() {
      start + size <= |text|
    }

    predicate Empty() {
      size == 0
    }

    /** The characters the view denotes. */
    function Chars(): (s: string)
      requires Valid()
      ensures |s| == size
    {
      text[start..start + size]
    }

    function At(i: nat): (c: char)
      requires Valid() && i < size
      ensures c == Chars()[i]
    {
      text[start + i]
    }

    /** substr(start, len), with both of its assertions. */
    function Substr(from: nat, len: nat): (v: View)
      requires Valid() && from <= size && len <= size - from
      ensures v.Valid() && v.text == text && v.Chars() == Chars()[from..from + len]
    {
      assert text[start + from..start + from + len] == text[start..start + size][from..from + len];
      View(text, start + from, len)
    }

    /** substr(start): everything from `from` on. */
    function SubstrFrom(from: nat): (v: View)
      requires Valid() && from <= size
      ensures v.Valid() && v.text == text && v.Chars() == Chars()[from..]
    {
      Substr(from, size - from)
    }
  }

  type ConstexprStringView = v: View | v.Valid() witness View("", 0, 0)

  /** `left` and `right` are adjacent windows that together make up `whole`. */
  ghost predicate Partition(whole: View, left: View, right: View) {
    && left.text == whole.text && right.text == whole.text
    && left.start == whole.start
    && right.start == left.start + left.size
    && right.start + right.size == whole.start + whole.size
  }

  /** Constructing a view from a string literal. */
  function OfLiteral(lit: string): (v: ConstexprStringView)
    ensures v.Chars() == lit && v.size == |lit|
  {
    View(lit, 0, |lit|)
  }

  /** operator== on views compares sizes, then characters in order. */
  method Equal(lhs: ConstexprStringView, rhs: ConstexprStringView) returns (equal: bool)
    ensures equal <==> lhs.Chars() == rhs.Chars()
  {
    if lhs.size != rhs.size {
      return false;
    }
    var i := 0;
    while i < lhs.size
      invariant i <= lhs.size
      invariant lhs.Chars()[..i] == rhs.Chars()[..i]
    {
      if lhs.At(i) != rhs.At(i) {
        assert lhs.Chars()[i] != rhs.Chars()[i];
        return false;
      }
      i := i + 1;
    }
    assert lhs.Chars()[..i] == lhs.Chars() && rhs.Chars()[..i] == rhs.Chars();
    return true;
  }

  /** A vector stored in an array whose length is fixed up front. */
  class ConstexprVector<T(0)> {
    const data: array<T>
    var size: nat

    ghost predicate Valid()
      reads this
    {
      size <= data.Length
    }

    ghost function Elements(): (s: seq<T>)
      requires Valid()
      reads this, data
      ensures |s| == size
    {
      data[..size]
    }

    constructor (kMaxSize: nat)
      ensures Valid() && fresh(data)
      ensures data.Length == kMaxSize && Elements() == []
    {
      data := new T[kMaxSize];
      size := 0;
    }

    method PushBack(value: T)
      requires Valid() && size + 1 <= data.Length
      modifies this, data
      ensures Valid() && Elements() == old(Elements()) + [value]
    {
      data[size] := value;
      size := size + 1;
    }

    function At(i: nat): (value: T)
      requires Valid() && i < size
      reads this, data
      ensures value == Elements()[i]
    {
      data[i]
    }
  }
}
