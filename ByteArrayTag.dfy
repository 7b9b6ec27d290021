/** `org.jnbt.ByteArrayTag`: the `TAG_Byte_Array` variant of the tag, whose value is a byte
    array, whose children are cells over that array, and whose text form lists the bytes in
    hexadecimal. */
module ByteArrayTags {
  import opened Wrappers
  import opened JavaLang
  import opened HexUtils
  import opened TagBase
  import opened ByteWrappers

  const TAG_NAME: string := "TAG_Byte_Array"

  /** The byte list of the text form: `" " + byteToHex(b)` for each byte, in order. */
  function HexBytes(bs: seq<int8>): (r: string)
    ensures |r| == 3 * |bs|
  {
    if bs == [] then "" else " " + ByteToHex(bs[0]) + HexBytes(bs[1..])
  }

  /** Appending one byte appends its token: the loop in `toString` builds `HexBytes`. */
  lemma {:induction false} HexBytesSnoc(bs: seq<int8>, b: int8)
    ensures HexBytes(bs + [b]) == HexBytes(bs) + " " + ByteToHex(b)
  {
    if bs != [] {
      assert (bs + [b])[1..] == bs[1..] + [b];
      HexBytesSnoc(bs[1..], b);
    }
  }

  /** A reader for the byte list: the inverse of `HexBytes`, None for a malformed list. */
  function ParseHexBytes(s: string): (r: Option<seq<int8>>)
    ensures r.Some? ==> |s| == 3 * |r.value|
    decreases |s|
  {
    if s == [] then Some([])
    else if |s| < 3 || s[0] != ' ' then None
    else match (HexToByte(s[1], s[2]), ParseHexBytes(s[3..]))
      case (Some(b), Some(rest)) => Some([b] + rest)
      case _ => None
  }

  lemma {:induction false} HexBytesRoundTrip(bs: seq<int8>)
    ensures ParseHexBytes(HexBytes(bs)) == Some(bs)
  {
    if bs != [] {
      var s := HexBytes(bs);
      ByteHexRoundTrip(bs[0]);
      assert s[3..] == HexBytes(bs[1..]);
      HexBytesRoundTrip(bs[1..]);
      assert [bs[0]] + bs[1..] == bs;
    }
  }

  /** The text form's header: the tag type, the name segment and a colon (no space). */
  function Header(name: string): string {
    TAG_NAME + NameClause(name) + ":"
  }

  /** `toString()` of a byte-array tag named `name` holding `bs`. */
  function Rendering(name: string, bs: seq<int8>): string {
    Header(name) + HexBytes(bs)
  }

  /** An empty array renders as the bare header; the name segment is there only for a
      non-empty name; and the bytes can be read back from what follows the header. */
  lemma RenderingFacts(name: string, bs: seq<int8>)
    ensures Rendering(name, []) == Header(name)
    ensures name == [] ==> Header(name) == "TAG_Byte_Array:"
    ensures name != [] ==> Header(name) == "TAG_Byte_Array(\"" + name + "\"):"
    ensures |Rendering(name, bs)| == |Header(name)| + 3 * |bs|
    ensures ParseHexBytes(Rendering(name, bs)[|Header(name)|..]) == Some(bs)
  {
    assert Rendering(name, bs)[|Header(name)|..] == HexBytes(bs);
    HexBytesRoundTrip(bs);
  }

  class ByteArrayTag {
    /** The inherited `Tag<byte[]>` state: name, value and the variant's default. */
    const tag: Tag<array<int8>>

    /** Both constructors go through `setName` and `setValue`, and the variant's default is an
        empty array, so name and value are never `null` afterwards. */
    ghost predicate Valid()
      reads tag
    {
      && tag.name.Some?
      && tag.value.Some?
      && tag.defaultValue.Some?
      && tag.defaultValue.value.Length == 0
    }

    /** The array the tag currently holds. */
    function Bytes(): array<int8>
      reads tag
      requires Valid()
    {
      tag.value.value
    }

    /** `ByteArrayTag(name)` (value `None`) and `ByteArrayTag(name, value)`. */
    constructor (name: Option<string>, value: Option<array<int8>>)
      ensures Valid() && fresh(tag)
      ensures tag.name == Some(if name.Some? then name.value else "")
      ensures value.Some? ==> Bytes() == value.value
      ensures value.None? ==> fresh(Bytes()) && Bytes().Length == 0
    {
      var empty := new int8[0];
      var created := Tag<array<int8>>.Create(name, value, Some(empty));
      tag := created.value;
    }

    /** The inherited `getValue()`; under `Valid()` the lazy default never fires, so nothing
        changes. */
    method GetValue() returns (a: array<int8>)
      requires Valid()
      modifies tag
      ensures Valid() && unchanged(tag)
      ensures a == Bytes()
    {
      var r := tag.GetValue();
      a := r.value;
    }

    /** No column of the tag's row is editable. */
    function IsCellEditable(column: int): (r: bool)
      ensures !r
    {
      false
    }

    /** The value column shows the array length followed by `" bytes"`; every other column
        is answered by the inherited `getValueAt`, which is not part of this model and is
        therefore the parameter `inherited`. */
    method GetValueAt(column: int, inherited: int -> Obj) returns (r: Obj)
      requires Valid()
      modifies tag
      ensures Valid() && unchanged(tag)
      ensures column == COLUMN_VALUE ==> r == Str(NatToDecimal(Bytes().Length) + " bytes")
      ensures column != COLUMN_VALUE ==> r == inherited(column)
    {
      if column == COLUMN_VALUE {
        var bytes := GetValue();
        return Str(NatToDecimal(bytes.Length) + " bytes");
      }
      return inherited(column);
    }

    /** A new cell over the very array the tag holds (not a copy), at `index`, unchecked. */
    method GetChild(index: int) returns (w: ByteWrapper)
      requires Valid()
      modifies tag
      ensures Valid() && unchanged(tag)
      ensures fresh(w) && w.bytes == Bytes() && w.index == index
    {
      var value := GetValue();
      w := new ByteWrapper(value, index);
    }

    /** The current length of the held array. */
    method GetChildCount() returns (n: int)
      requires Valid()
      modifies tag
      ensures Valid() && unchanged(tag)
      ensures n == Bytes().Length
    {
      var value := GetValue();
      n := value.Length;
    }

    /** An `Integer` child is its own index; anything else, a cell included, is not found. */
    function GetIndexOfChild(child: Obj): (r: int)
      ensures child.Int? ==> r == child.i
      ensures !child.Int? ==> r == -1
    {
      if child.Int? then child.i else -1
    }

    /** `toString()`: the header, then a space and two hex digits per byte, built in a loop as
        the source's `StringBuilder` is. */
    method ToString() returns (s: string)
      requires Valid()
      modifies tag
      ensures Valid() && unchanged(tag)
      ensures s == Rendering(tag.name.value, Bytes()[..])
    {
      var name := tag.name.value;
      var value := GetValue();
      s := Header(name);
      var i := 0;
      while i < value.Length
        invariant 0 <= i <= value.Length
        invariant s == Header(name) + HexBytes(value[..i])
        modifies {}
      {
        HexBytesSnoc(value[..i], value[i]);
        assert value[..i + 1] == value[..i] + [value[i]];
        s := s + " " + ByteToHex(value[i]);
        i := i + 1;
      }
      assert value[..] == value[..value.Length];
    }
  }

  /** A child handed out by `getChild` is not found again by `getIndexOfChild`. */
  lemma ChildIndexNotFound(t: ByteArrayTag, w: ByteWrapper)
    ensures t.GetIndexOfChild(Wrapper(w)) == -1
  {
  }

  /** `new ByteArrayTag(name)` has no children. */
  method NewTagHasNoChildren(name: Option<string>) returns (n: int)
    ensures n == 0
  {
    var t := new ByteArrayTag(name, None);
    n := t.GetChildCount();
  }

  /** A byte written through the cell `getChild(i)` is what `getValue()[i]` then holds, and
      nothing else in the array changes: the cell aliases the tag's array. */
  method WriteThroughChild(t: ByteArrayTag, i: int, b: int8) returns (r: Result<(), IndexError>)
    requires t.Valid()
    modifies t.tag, t.Bytes()
    ensures t.Valid() && unchanged(t.tag)
    ensures r.Success? <==> 0 <= i < t.Bytes().Length
    ensures r.Success? ==> t.Bytes()[..] == old(t.Bytes()[..])[i := b]
    ensures r.Failure? ==> t.Bytes()[..] == old(t.Bytes()[..])
  {
    var w := t.GetChild(i);
    r := w.SetValueAt(Byte(b), COLUMN_VALUE);
    var after := t.GetValue();
    assert after == w.bytes;
  }
}
