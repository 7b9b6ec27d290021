# named-binary-tag core, modelled in Dafny

This project models the sequential core of a Java map viewer/editor for Named Binary Tag
(NBT) data:

- the abstract tag `org.jnbt.Tag<T>`, a named value holder that creates its value lazily
  from the variant's default;
- its byte-array variant `org.jnbt.ByteArrayTag` (`TAG_Byte_Array`), whose children are
  editable cells over its array and whose text form lists the bytes in hexadecimal;
- the cell `com.nbt.ByteWrapper`, which shares the tag's array instead of copying it;
- the coordinate folding of `TileCanvas.TileWorld` (`divide`, `modulus`, `getChunkFor`,
  `getBlock`), built on Java's truncating `/` and `%`;
- the viewport state of `com.nbt.TileCanvas`: `x`, `z` and `altitude`, the clamp `validate`,
  the setters, keyboard navigation, `pixelsToTile`, and the downward search of
  `getBackgroundTile`.

Files and modules:

| file | module | models |
|---|---|---|
| Wrappers.dfy | `Wrappers` | `Option` for `null`, `Result` for a thrown exception |
| JavaLang.dfy | `JavaLang` | Java `byte` (`int8`), truncating `JDiv`/`JRem`, `Integer.toString` for lengths |
| HexUtils.dfy | `HexUtils` | `HexUtils.byteToHex` (assumed, see below) |
| Tag.dfy | `TagBase` | `Tag<T>` as a class with `name` and `value` fields |
| ByteWrapper.dfy | `ByteWrappers` | `ByteWrapper` as a class over a shared `array<int8>` |
| ByteArrayTag.dfy | `ByteArrayTags` | `ByteArrayTag` as a class around a `Tag<array<int8>>` |
| TileWorld.dfy | `TileWorld` | `divide`, `modulus`, `getChunkFor`, `getBlock` over an abstract region |
| TileCanvas.dfy | `Canvas` | `validate`, `pixelsToTile`, the `x`/`z`/`altitude` state, `keyPressed`, `getTile`, `getBackgroundTile` |

How the Java constructs are represented:

- `null` is `None`. An exception is a `Failure`, or `Threw` for a call into code the model
  does not contain.
- Java has no closed set of variants here, so the variant's `createDefaultValue()` is
  the tag's `defaultValue` constant. `None` stands for a variant that does not override it,
  in which case the base method throws `IllegalStateException`.
- Java's `Object` arguments are the datatype `Obj`: `null`, `Integer`, `Byte`, `String`, a
  wrapper, or anything else.
- `Region.getChunk` and `Chunk.getBlock` are function fields of `World`. `Block.getBlockID`
  and the sprite register are function parameters.
- `Block.MAX_X`, `Block.MAX_Z`, `Block.MIN_Y` and `Block.MAX_Y` are not part of this model.
  The world lookups and `GetBackgroundTile` take them as the fields of `Extents`. The canvas
  class takes `MIN_Y` and `MAX_Y` as its own constants `minY` and `maxY`. The model does not
  tie the two copies together; in the program both are the same constants of `Block`.
  Everything is proved for every choice with `MAX_X, MAX_Z > 0` and `MIN_Y < MAX_Y`.
- `TileCanvas(World)` accepts any `World`; only `TileCanvas(Region)` wraps a region in a
  `TileWorld`. `Canvas.GetTile` and `Canvas.GetBackgroundTile` read blocks through
  `TileWorld.GetBlock`, so they model a canvas built from a region. A canvas over some other
  `World` is not part of this model.
- `Node.COLUMN_KEY` and `Node.COLUMN_VALUE` are not part of this model. They are given the
  values 0 and 1, and the model relies only on their being distinct.
- `HexUtils.byteToHex` is not part of this model. It is assumed to produce the two
  lower-case hexadecimal digits of the byte's unsigned value, so that `-1` renders as `ff`.

In these places the model follows what the code does, even where that departs from floor division or from what its callers evidently expect:

- `divide(-16, 16)` is `-2`, not `-1`. At every exact negative multiple the code's tile is one
  below floor division.
- `modulus` of a negative coordinate is always negative (`modulus(-1, 16) = -2`). The code
  therefore never gives a negative coordinate an offset inside its chunk.
- `getIndexOfChild` does not map a child cell back to its index. It answers `-1` for a cell
  and returns an `Integer` argument unchanged.
- Only `region.getChunk` is guarded against exceptions. An exception thrown by the chunk's
  own `getBlock` propagates.
- `getValue` on a variant without a default throws; it does not answer a value.

## Model

| member | source | states |
|---|---|---|
| `JavaLang.JDiv` | src/com/nbt/TileCanvas.java:498 | Java `/`: the remainder has the dividend's sign and is smaller in magnitude than the divisor |
| `JavaLang.JRem` | src/com/nbt/TileCanvas.java:518 | Java `%`: in `[0, abs(b))` for a non-negative dividend, in `(-abs(b), 0]` for a negative one |
| `JavaLang.JDivUnique` | src/com/nbt/TileCanvas.java:498 | the truncating quotient is the only quotient with those remainder bounds |
| `JavaLang.NatToDecimal` | src/org/jnbt/ByteArrayTag.java:73 | the decimal form of a length is a non-empty string of digits with no leading zero (except for 0 itself) |
| `JavaLang.DecimalRoundTrip` | src/org/jnbt/ByteArrayTag.java:73 | reading that decimal form back gives the length |
| `HexUtils.ByteToHex` | src/org/jnbt/ByteArrayTag.java:108 | two hex digits whose value is the byte's unsigned value (an assumption) |
| `HexUtils.ByteHexRoundTrip` | src/org/jnbt/ByteArrayTag.java:108 | the two digits read back give the byte |
| `TagBase.NameClause` | src/org/jnbt/Tag.java:126-128 | the name segment is empty exactly for the empty name, otherwise `("name")` |
| `TagBase.Tag.Empty` | src/org/jnbt/Tag.java:50-52 | the no-argument constructor leaves name and value `null` |
| `TagBase.Tag.Create` | src/org/jnbt/Tag.java:60-75 | `Tag(name)` is `Tag(name, null)`; the name becomes non-null (`""` for `null`); the value is the given one or the variant default; it throws `IllegalStateException` exactly when neither exists |
| `TagBase.CreateDefaultName` | src/org/jnbt/Tag.java:92-94 | the base default name is empty, so a tag given no name prints no name segment |
| `TagBase.Tag.SetName` | src/org/jnbt/Tag.java:86-94 | `null` stores the default name `""`; any other name is stored verbatim |
| `TagBase.Tag.CreateDefaultValue` | src/org/jnbt/Tag.java:120-122 | the variant's default, or `IllegalStateException` when the variant does not override it |
| `TagBase.Tag.SetValue` | src/org/jnbt/Tag.java:114-118 | a non-null value is stored exactly; `null` stores the default; when the default throws, nothing changes; `null` is never stored |
| `TagBase.Tag.GetValue` | src/org/jnbt/Tag.java:102-106 | a present value is returned and nothing changes; an absent one is first replaced by the default; a successful answer is the stored value, never `null` |
| `TagBase.Tag.ToString` | src/org/jnbt/Tag.java:124-131 | the tag type, then `("name")` only for a non-empty name, then `": "` and the stored field (`null` if absent); `NullPointerException` exactly when the name was never set |
| `TagBase.SetThenGet` | src/org/jnbt/Tag.java:102-118 | `getValue()` right after `setValue(v)` with a non-null `v` answers `v` |
| `TagBase.ResetThenGet` | src/org/jnbt/Tag.java:102-122 | `getValue()` right after `setValue(null)` answers the variant default, or the call throws `IllegalStateException` |
| `TagBase.GetValueTwice` | src/org/jnbt/Tag.java:102-106 | two reads answer the same; the lazy default is installed once |
| `ByteWrappers.ArraysEquals` | src/com/nbt/ByteWrapper.java:83 | `Arrays.equals` holds exactly when the two arrays have the same contents |
| `ByteWrappers.ByteWrapper.constructor` | src/com/nbt/ByteWrapper.java:39-42 | keeps the very array given (no copy) and the index, unchecked |
| `ByteWrappers.ByteWrapper.IsCellEditable` | src/com/nbt/ByteWrapper.java:44-51 | editable exactly for the value column |
| `ByteWrappers.ByteWrapper.GetValueAt` | src/com/nbt/ByteWrapper.java:53-62 | key column: the index; value column: the byte at the index, or an index error out of range; any other column: `null` |
| `ByteWrappers.ByteWrapper.SetValueAt` | src/com/nbt/ByteWrapper.java:64-72 | a `Byte` written to the value column replaces exactly that element in place, with the length unchanged; an out-of-range index throws; any other write changes nothing |
| `ByteWrappers.ByteWrapper.Equals` | src/com/nbt/ByteWrapper.java:74-88 | true exactly for a wrapper with element-wise equal array contents and the same index |
| `ByteWrappers.EqualsReflexive` | src/com/nbt/ByteWrapper.java:74-88 | every wrapper equals itself |
| `ByteWrappers.EqualsSymmetric` | src/com/nbt/ByteWrapper.java:74-88 | equality is symmetric |
| `ByteWrappers.EqualsTransitive` | src/com/nbt/ByteWrapper.java:74-88 | equality is transitive |
| `ByteWrappers.EqualityIsByValue` | src/com/nbt/ByteWrapper.java:74-88 | cells over two separate arrays `[5]` and `[5]` are equal; over `[5]` and `[6]` they are not |
| `ByteArrayTags.HexBytes` | src/org/jnbt/ByteArrayTag.java:106-110 | the byte list has three characters per byte |
| `ByteArrayTags.HexBytesSnoc` | src/org/jnbt/ByteArrayTag.java:106-110 | each loop step appends `" "` and the next byte's two digits |
| `ByteArrayTags.ParseHexBytes` | src/org/jnbt/ByteArrayTag.java:106-110 | a reader for the byte list; a list it accepts has three characters per byte |
| `ByteArrayTags.HexBytesRoundTrip` | src/org/jnbt/ByteArrayTag.java:106-110 | reading the byte list back gives the bytes, in order |
| `ByteArrayTags.RenderingFacts` | src/org/jnbt/ByteArrayTag.java:99-112 | an empty array renders as `TAG_Byte_Array:` or `TAG_Byte_Array("name"):`; the name segment is there only for a non-empty name; the bytes can be read back from what follows the header |
| `ByteArrayTags.ByteArrayTag.constructor` | src/org/jnbt/ByteArrayTag.java:50-61 | the name is non-null; the value is the given array itself, or a fresh empty array |
| `ByteArrayTags.ByteArrayTag.GetValue` | src/org/jnbt/Tag.java:102-106 | under the tag's invariant the inherited `getValue` changes nothing and answers the held array |
| `ByteArrayTags.ByteArrayTag.IsCellEditable` | src/org/jnbt/ByteArrayTag.java:63-66 | no column is editable |
| `ByteArrayTags.ByteArrayTag.GetValueAt` | src/org/jnbt/ByteArrayTag.java:68-77 | the value column shows the current length followed by `" bytes"`; every other column answers whatever the inherited `getValueAt` (the parameter `inherited`) answers |
| `ByteArrayTags.ByteArrayTag.GetChild` | src/org/jnbt/ByteArrayTag.java:79-83 | a fresh wrapper over the same array object that `getValue()` answers, at the given index, with no bounds check |
| `ByteArrayTags.ByteArrayTag.GetChildCount` | src/org/jnbt/ByteArrayTag.java:85-89 | the current length of the held array |
| `ByteArrayTags.ByteArrayTag.GetIndexOfChild` | src/org/jnbt/ByteArrayTag.java:91-97 | an `Integer` is its own index; anything else answers `-1` |
| `ByteArrayTags.ByteArrayTag.ToString` | src/org/jnbt/ByteArrayTag.java:99-112 | the loop builds `TAG_Byte_Array`, the name segment, `":"` and `" " + hex` per byte in order |
| `ByteArrayTags.ChildIndexNotFound` | src/org/jnbt/ByteArrayTag.java:91-97 | a cell child, such as one from `getChild`, answers `-1` |
| `ByteArrayTags.NewTagHasNoChildren` | src/org/jnbt/ByteArrayTag.java:50-61 | `new ByteArrayTag(name)` has child count 0 |
| `ByteArrayTags.WriteThroughChild` | src/org/jnbt/ByteArrayTag.java:79-83 | a byte written through `getChild(i)` is then `getValue()[i]`, and no other element changes; it throws exactly for an index out of range |
| `TileWorld.Divide` | src/com/nbt/TileCanvas.java:497-502 | for a positive size: floor division of a non-negative coordinate, and floor division of `x - 1` for a negative one; for a negative divisor, the truncating quotient |
| `TileWorld.Modulus` | src/com/nbt/TileCanvas.java:517-522 | in `[0, S)` for a non-negative coordinate; in `[-S, -1]` for a negative one (the floor remainder of `x - 1`, minus `S`) |
| `TileWorld.FoldReconstruction` | src/com/nbt/TileCanvas.java:497-522 | `divide*S + modulus` is `x` for `x >= 0`; for `x < 0` it is `x - S - 1`, and the pair is the floor fold of `x - 1` shifted down one tile |
| `TileWorld.DivideMonotone` | src/com/nbt/TileCanvas.java:497-502 | a larger coordinate never lies in a lower tile |
| `TileWorld.FoldExamples` | src/com/nbt/TileCanvas.java:497-522 | `divide` gives 0, 0, 1, -1, -1, -2 at 0, 15, 16, -1, -15, -16; `modulus` gives 4, -2, -4, -1 at 20, -1, -3, -16 (size 16) |
| `TileWorld.DivideAtNegativeMultiple` | src/com/nbt/TileCanvas.java:497-502 | at `-k*S` the code answers `-k-1` where floor division answers `-k` |
| `TileWorld.ModulusNegativeOffsets` | src/com/nbt/TileCanvas.java:517-522 | a negative coordinate gets a negative offset, unlike floor modulus; `modulus(-1, S) = -2` where `S - 1` is meant |
| `TileWorld.FloorFoldCorrect` | src/com/nbt/TileCanvas.java:497-522 | the corrected folds equal floor division and modulus; they rebuild every coordinate with an offset in `[0, S)`; they agree with the code on `x >= 0` |
| `TileWorld.ChunkAt` | src/com/nbt/TileCanvas.java:489-494 | the region's chunk, or `null` when the lookup throws |
| `TileWorld.GetChunkFor` | src/com/nbt/TileCanvas.java:485-495 | the region's chunk at `(divide(x, MAX_X), divide(z, MAX_Z))`, and `null` whenever that lookup throws |
| `TileWorld.GetBlock` | src/com/nbt/TileCanvas.java:504-515 | `null` without a chunk; otherwise the chunk's block at `(modulus(x, MAX_X), y, modulus(z, MAX_Z))`, with `y` passed through |
| `TileWorld.GetBlockExample` | src/com/nbt/TileCanvas.java:504-515 | with 16-wide chunks, world `(20, 70, -3)` is read from chunk `(1, -1)` at `(4, 70, -4)` |
| `TileWorld.GetBlockCorrected` | src/com/nbt/TileCanvas.java:504-515 | the lookup with floor folds agrees with `getBlock` wherever `x, z >= 0` |
| `TileWorld.CorrectedAddressing` | src/com/nbt/TileCanvas.java:504-515 | with floor folds, every world column is read from the chunk and in-range offset that rebuild it |
| `Canvas.Validate` | src/com/nbt/TileCanvas.java:411-415 | for `min <= max`: the result is in `[min, max]`, an in-range value is unchanged, and a value above or below is clamped to `max` or `min`; for `min > max`: `min` |
| `Canvas.ValidateIdempotent` | src/com/nbt/TileCanvas.java:411-415 | clamping twice is clamping once |
| `Canvas.PixelsToTile` | src/com/nbt/TileCanvas.java:320-322 | the truncating quotient by the sprite size 16 |
| `Canvas.AfterKeyMoves` | src/com/nbt/TileCanvas.java:269-296 | UP/DOWN change only `z` by -1/+1; LEFT/RIGHT change only `x`; PAGE_UP/PAGE_DOWN set `altitude` to `validate(altitude ± 1, MIN_Y, MAX_Y-1)` and change nothing else, so the altitude stays at the top or bottom bound there and an out-of-range start moves to the nearest bound; other keys change nothing |
| `Canvas.OppositeKeysCancel` | src/com/nbt/TileCanvas.java:269-296 | UP then DOWN and LEFT then RIGHT restore the view; PAGE_UP then PAGE_DOWN do too when no clamp intervenes |
| `Canvas.AltitudeStaysInRange` | src/com/nbt/TileCanvas.java:288-295 | an altitude inside `[MIN_Y, MAX_Y-1]` stays there under any sequence of keys |
| `Canvas.TileCanvas.constructor` | src/com/nbt/TileCanvas.java:84 | `x`, `z` and `altitude` start at 0 |
| `Canvas.TileCanvas.SetTileX` | src/com/nbt/TileCanvas.java:349-351 | stores `x` and changes nothing else |
| `Canvas.TileCanvas.SetTileZ` | src/com/nbt/TileCanvas.java:357-359 | stores `z` and changes nothing else |
| `Canvas.TileCanvas.SetAltitude` | src/com/nbt/TileCanvas.java:365-367 | stores the altitude clamped into `[MIN_Y, MAX_Y-1]` and changes nothing else |
| `Canvas.TileCanvas.KeyPressed` | src/com/nbt/TileCanvas.java:269-296 | the new view is `AfterKey` of the old one |
| `Canvas.GetTile` | src/com/nbt/TileCanvas.java:324-331 | `null` without a block; otherwise the register's record for the block's id; an exception of the lookup propagates |
| `Canvas.ScanDownFinds` | src/com/nbt/TileCanvas.java:333-343 | the search answers the first level from `y` downward, not below `MIN_Y`, that has a sprite, and every level passed over was empty; `null` means every level down to `MIN_Y` was empty |
| `Canvas.GetBackgroundTile` | src/com/nbt/TileCanvas.java:333-343 | the loop computes that search, including how many levels down the sprite lies |

## Findings

| source | as written | input that shows it | evidently intended | confidence | as-written member | corrected member |
|---|---|---|---|---|---|---|
| src/com/nbt/TileCanvas.java:497-502 | `divide` lowers the truncating quotient by one for every negative dividend, including exact multiples | `divide(-16, 16) = -2`, so chunk -1 holds only the 15 columns -15..-1 | floor division, `-1` | not executed; high | `TileWorld.DivideAtNegativeMultiple` | `TileWorld.FloorFoldCorrect` |
| src/com/nbt/TileCanvas.java:517-522 | `modulus` subtracts one from the remainder of every negative dividend | `modulus(-1, 16) = -2`, an offset outside the chunk | floor modulus, `15` | not executed; high | `TileWorld.ModulusNegativeOffsets` | `TileWorld.FloorFoldCorrect` |

`TileWorld.GetBlockCorrected` and `TileWorld.CorrectedAddressing` give the block lookup with
the corrected folds. `TileWorld.GetBlock` and `Canvas.GetTile` keep the folds as the code
writes them, because that is what the program does.

## Left out

- Painting, the HUD, every listener (mouse, wheel, drag and drop, resize) and `updateXYZ`,
  `doRepaint` and `updateSize` are Swing GUI. `keyPressed` is modelled without its trailing
  `updateXYZ`/`doRepaint`/`save` calls.
- `save`, `restore` and `getPreferences` are `java.util.prefs` I/O.
- `getTileWidth`, `getTileHeight`, `calculateWidth`, `calculateHeight`, `setTileWidth` and
  `setTileHeight` depend on the component's on-screen size.
- Canvas.TileCanvas.KeyPressed: coordinates are unbounded integers, so the 32-bit
  wrap-around of `x + 1` or `z - 1` at the `int` limits is not modelled. The same holds for
  `TileWorld.Divide`, `TileWorld.Modulus` and `JavaLang.JDiv` (`Integer.MIN_VALUE / -1`).
- Canvas.GetBackgroundTile: answers the record found and how many levels below the start it
  lies. It does not model the float `darkness` or the image chosen from it (`getImage` with
  or without darkening).
- The sprite register and its CSV loading at class initialisation are replaced by a lookup
  function parameter.
- `Region`, `Chunk`, `Block`, `NBTBranch` and `HexUtils` are not part of this model. They are
  abstract functions or the stated assumptions above.
- ByteArrayTags.ByteArrayTag.constructor: the variant's empty default array is allocated once
  per tag, not anew on each `createDefaultValue` call. The array is empty, so no cell can
  write to it, and the two are told apart only by reference identity.
- ByteWrappers.ByteWrapper.constructor: the array is non-null. `getChild`, the only place
  that creates a cell, passes the tag's non-null value.
- TagBase.Tag.SetName: every variant uses the base default name `""`. `createDefaultName`
  is protected and could be overridden, but no variant in this model overrides it.
- TagBase.Tag.ToString: the value's own `toString` is the parameter `show`, since it belongs
  to the variant's value type.
- `getName()` is the plain field `name`. The `World` methods of `TileWorld` that only throw
  `"stub"`, and its `getName()`, which passes the region's name through, are left out.
- The `trunk/` copies of `TileCanvas` and `SpriteRecord` are older GUI code with a timer
  thread and image slicing. The vendored `AggregateTranslator` writes to a `java.io.Writer`
  through translators that are not part of this model.
