/** `com.nbt.ByteWrapper`: an editable table cell over one element of a byte array that it
    shares with its owner (no copy is taken), together with the `Object` values that cross the
    cell's interface. */
module ByteWrappers {
  import opened Wrappers
  import opened JavaLang

  /** The table columns of `com.nbt.Node`. Their values are not part of this model; the model
      relies only on their being distinct. */
  const COLUMN_KEY: int := 0
  const COLUMN_VALUE: int := 1

  /** The Java `Object`s that are passed to or returned by a cell: `null`, a boxed `Integer`,
      a boxed `Byte`, a `String`, a wrapper, or an object of any other class. */
  datatype Obj = Null | Int(i: int) | Byte(b: int8) | Str(s: string) | Wrapper(w: ByteWrapper) | Other

  /** `ArrayIndexOutOfBoundsException`. */
  datatype IndexError = IndexOutOfBounds

  /** `java.util.Arrays.equals` on two non-null byte arrays. */
  function ArraysEquals(a: array<int8>, b: array<int8>): (r: bool)
    reads a, b
    ensures r <==> a[..] == b[..]
  {
    a == b || (a.Length == b.Length && forall i :: 0 <= i < a.Length ==> a[i] == b[i])
  }

  class ByteWrapper {
    const bytes: array<int8>
    const index: int

    /** No bounds check: an out-of-range index fails only when the cell is read or written. */
    constructor (bytes: array<int8>, index: int)
      ensures this.bytes == bytes && this.index == index
    {
      this.bytes := bytes;
      this.index := index;
    }

    /** Only the value column can be edited. */
    function IsCellEditable(column: int): (r: bool)
      ensures r <==> column == COLUMN_VALUE
    {
      column == COLUMN_VALUE
    }

    /** The key column answers the index, the value column the byte there (or an index
        error), and every other column `null`. */
    function GetValueAt(column: int): (r: Result<Obj, IndexError>)
      reads bytes
      ensures column == COLUMN_KEY ==> r == Success(Int(index))
      ensures column == COLUMN_VALUE ==> (r.Failure? <==> !(0 <= index < bytes.Length))
      ensures column == COLUMN_VALUE && 0 <= index < bytes.Length ==> r == Success(Byte(bytes[index]))
      ensures column != COLUMN_KEY && column != COLUMN_VALUE ==> r == Success(Null)
    {
      if column == COLUMN_KEY then Success(Int(index))
      else if column == COLUMN_VALUE then
        if 0 <= index < bytes.Length then Success(Byte(bytes[index])) else Failure(IndexOutOfBounds)
      else Success(Null)
    }

    /** A `Byte` written to the value column replaces that element of the shared array in
        place; every other write is ignored. */
    method SetValueAt(value: Obj, column: int) returns (r: Result<(), IndexError>)
      modifies bytes
      ensures value.Byte? && column == COLUMN_VALUE && 0 <= index < bytes.Length ==>
                r.Success? && bytes[..] == old(bytes[..])[index := value.b]
      ensures value.Byte? && column == COLUMN_VALUE && !(0 <= index < bytes.Length) ==>
                r == Failure(IndexOutOfBounds) && bytes[..] == old(bytes[..])
      ensures !(value.Byte? && column == COLUMN_VALUE) ==> r.Success? && bytes[..] == old(bytes[..])
    {
      if value.Byte? && column == COLUMN_VALUE {
        if !(0 <= index < bytes.Length) {
          return Failure(IndexOutOfBounds);
        }
        bytes[index] := value.b;
      }
      return Success(());
    }

    /** `equals`: the other object is a wrapper whose array has the same contents and whose
        index is the same. Sharing the array is not required. */
    function Equals(obj: Obj): (r: bool)
      reads bytes, if obj.Wrapper? then {obj.w.bytes} else {}
      ensures r <==> obj.Wrapper? && obj.w.bytes[..] == bytes[..] && obj.w.index == index
    {
      match obj
      case Wrapper(other) => other == this || (ArraysEquals(bytes, other.bytes) && index == other.index)
      case _ => false
    }
  }

  lemma EqualsReflexive(a: ByteWrapper)
    ensures a.Equals(Wrapper(a))
  {
  }

  lemma EqualsSymmetric(a: ByteWrapper, b: ByteWrapper)
    ensures a.Equals(Wrapper(b)) <==> b.Equals(Wrapper(a))
  {
  }

  lemma EqualsTransitive(a: ByteWrapper, b: ByteWrapper, c: ByteWrapper)
    requires a.Equals(Wrapper(b)) && b.Equals(Wrapper(c))
    ensures a.Equals(Wrapper(c))
  {
  }

  /** Cells over two separate arrays `[5]` and `[5]` at index 0 are equal; over `[5]` and
      `[6]` they are not. */
  method EqualityIsByValue() returns (same: bool, different: bool)
    ensures same && !different
  {
    var a := new int8[1];
    a[0] := 5;
    var b := new int8[1];
    b[0] := 5;
    var c := new int8[1];
    c[0] := 6;
    var wa := new ByteWrapper(a, 0);
    var wb := new ByteWrapper(b, 0);
    var wc := new ByteWrapper(c, 0);
    same := wa.Equals(Wrapper(wb));
    different := wa.Equals(Wrapper(wc));
    assert a[..] == b[..];
    assert a[..][0] != c[..][0];
  }
}
