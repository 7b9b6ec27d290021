/** The abstract NBT tag (`org.jnbt.Tag<T>`): a named value holder whose value is created
    lazily from the variant's default when it is still absent. */
module TagBase {
  import opened Wrappers

  /** The exceptions the tag's operations can throw. */
  datatype TagError =
    | IllegalState   // `createDefaultValue` of a variant that does not override it
    | NullPointer    // `toString` on a tag whose name was never set

  /** `createDefaultName()` of the base class: the empty name, which `toString` renders
      with no name segment at all. */
  function CreateDefaultName(): (r: string)
    ensures |r| == 0 && NameClause(r) == []
  {
    ""
  }

  /** The name segment of a tag's text form: `("name")`, or nothing for the empty name. */
  function NameClause(name: string): (r: string)
    ensures r == [] <==> name == []
    ensures name != [] ==> r == "(\"" + name + "\")"
  {
    if name == [] then "" else "(\"" + name + "\")"
  }

  class Tag<T> {
    /** `None` is Java's `null`. */
    var name: Option<string>
    var value: Option<T>
    /** What the variant's `createDefaultValue()` returns; `None` for a variant that does not
        override it, so that asking for a default throws `IllegalStateException`. */
    const defaultValue: Option<T>

    /** `Tag()`: both fields stay `null`. */
    constructor Empty(defaultValue: Option<T>)
      ensures name == None && value == None
      ensures this.defaultValue == defaultValue
    {
      this.defaultValue := defaultValue;
      name := None;
      value := None;
    }

    /** `Tag(name, value)`, and `Tag(name)` as `Tag(name, null)`: `setName(name)` then
        `setValue(value)`. The constructor throws when no value is given and the variant has
        no default. */
    static method Create(name: Option<string>, value: Option<T>, defaultValue: Option<T>)
      returns (r: Result<Tag<T>, TagError>)
      ensures r.Failure? <==> value.None? && defaultValue.None?
      ensures r.Failure? ==> r.error == IllegalState
      ensures r.Success? ==> fresh(r.value) && r.value.defaultValue == defaultValue
      ensures r.Success? ==> r.value.name == Some(if name.Some? then name.value else "")
      ensures r.Success? ==> r.value.value == (if value.Some? then value else defaultValue)
    {
      var t := new Tag<T>.Empty(defaultValue);
      t.SetName(name);
      var stored := t.SetValue(value);
      if stored.Failure? {
        return Failure(stored.error);
      }
      return Success(t);
    }

    /** `setName`: `null` is replaced by the default name. */
    method SetName(n: Option<string>)
      modifies this`name
      ensures name == Some(if n.Some? then n.value else CreateDefaultName())
    {
      if n.None? {
        name := Some(CreateDefaultName());
      } else {
        name := n;
      }
    }

    /** `createDefaultValue()`: the variant's default, or `IllegalStateException`. */
    function CreateDefaultValue(): (r: Result<T, TagError>)
      ensures r.Success? <==> defaultValue.Some?
      ensures r.Success? ==> r.value == defaultValue.value
      ensures r.Failure? ==> r.error == IllegalState
    {
      if defaultValue.Some? then Success(defaultValue.value) else Failure(IllegalState)
    }

    /** `setValue`: `null` is replaced by the variant's default, so `null` is never stored. When
        that default throws, nothing is stored. */
    method SetValue(v: Option<T>) returns (r: Result<(), TagError>)
      modifies this`value
      ensures v.Some? ==> r.Success? && value == v
      ensures v.None? && defaultValue.Some? ==> r.Success? && value == defaultValue
      ensures v.None? && defaultValue.None? ==> r == Failure(IllegalState) && value == old(value)
      ensures r.Success? ==> value.Some?
    {
      if v.None? {
        var d := CreateDefaultValue();
        if d.Failure? {
          return Failure(d.error);
        }
        value := Some(d.value);
      } else {
        value := v;
      }
      return Success(());
    }

    /** `getValue`: an absent value is first replaced by the default, so a successful call
        never answers `null`; a present value is returned as it is and nothing changes. */
    method GetValue() returns (r: Result<T, TagError>)
      modifies this`value
      ensures old(value).Some? ==> value == old(value) && r == Success(old(value).value)
      ensures old(value).None? && defaultValue.Some? ==> value == defaultValue && r == Success(defaultValue.value)
      ensures old(value).None? && defaultValue.None? ==> value == None && r == Failure(IllegalState)
      ensures r.Success? ==> value == Some(r.value)
    {
      if value.None? {
        var s := SetValue(None);
        if s.Failure? {
          return Failure(s.error);
        }
      }
      return Success(value.value);
    }

    /** `toString(tagType)`: the tag type, the name segment, `": "` and the stored value as
        `String.valueOf` shows it (`show` stands for the value's own `toString`). The stored
        field is read directly, so an absent value shows as `null`; an absent name throws. */
    function ToString(tagType: string, show: T -> string): (r: Result<string, TagError>)
      reads this
      ensures r.Failure? <==> name.None?
      ensures r.Failure? ==> r.error == NullPointer
      ensures r.Success? ==> r.value == tagType + NameClause(name.value) + ": "
                                        + (if value.Some? then show(value.value) else "null")
    {
      if name.None? then Failure(NullPointer)
      else Success(tagType + NameClause(name.value) + ": " + (if value.Some? then show(value.value) else "null"))
    }
  }

  /** `getValue()` right after `setValue(v)` with a non-null `v` answers `v`. */
  method SetThenGet<T>(t: Tag<T>, v: T) returns (r: Result<T, TagError>)
    modifies t
    ensures r == Success(v) && t.value == Some(v) && t.name == old(t.name)
  {
    var _ := t.SetValue(Some(v));
    r := t.GetValue();
  }

  /** `getValue()` right after `setValue(null)` answers the variant's default, or throws when
      the variant has none. */
  method ResetThenGet<T>(t: Tag<T>) returns (r: Result<T, TagError>)
    modifies t
    ensures t.defaultValue.Some? ==> r == Success(t.defaultValue.value) && t.value == t.defaultValue
    ensures t.defaultValue.None? ==> r == Failure(IllegalState)
  {
    var s := t.SetValue(None);
    if s.Failure? {
      return Failure(s.error);
    }
    r := t.GetValue();
  }

  /** Two reads in a row answer the same value: the lazy default is installed at most once. */
  method GetValueTwice<T>(t: Tag<T>) returns (r1: Result<T, TagError>, r2: Result<T, TagError>)
    modifies t
    ensures r1 == r2
    ensures r1.Success? ==> t.value == Some(r1.value)
  {
    r1 := t.GetValue();
    r2 := t.GetValue();
  }
}
