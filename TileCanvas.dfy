/** The non-graphical part of `com.nbt.TileCanvas`: the clamp, the pixel-to-tile conversion,
    the viewport state `(x, z, altitude)` with its setters and keyboard navigation, and the
    downward search for the block drawn at a map position. */
module Canvas {
  import opened Wrappers
  import opened JavaLang
  import opened TileWorld

  const SPRITE_SIZE: int := 16

  /** Key codes of `java.awt.event.KeyEvent`. */
  const VK_PAGE_UP: int := 33
  const VK_PAGE_DOWN: int := 34
  const VK_LEFT: int := 37
  const VK_UP: int := 38
  const VK_RIGHT: int := 39
  const VK_DOWN: int := 40

  /** `validate(value, min, max)`: `Math.max(Math.min(value, max), min)`. For `min <= max` it
      clamps into `[min, max]` and leaves an in-range value alone; otherwise it answers `min`. */
  function Validate(value: int, min: int, max: int): (r: int)
    ensures r >= min
    ensures min <= max ==> min <= r <= max
    ensures min <= value <= max ==> r == value
    ensures min <= max && value > max ==> r == max
    ensures value < min || min > max ==> r == min
  {
    var v := if value < max then value else max;
    if v > min then v else min
  }

  lemma ValidateIdempotent(value: int, min: int, max: int)
    ensures Validate(Validate(value, min, max), min, max) == Validate(value, min, max)
  {
  }

  /** `pixelsToTile`: Java's truncating `pixels / SPRITE_SIZE`, so a negative pixel offset
      rounds toward zero. */
  function PixelsToTile(pixels: int): (t: int)
    ensures pixels >= 0 ==> SPRITE_SIZE * t <= pixels < SPRITE_SIZE * (t + 1)
    ensures pixels < 0 ==> SPRITE_SIZE * (t - 1) < pixels <= SPRITE_SIZE * t
  {
    JDiv(pixels, SPRITE_SIZE)
  }

  /** The viewport: the tile at the canvas's top-left corner and the altitude shown. */
  datatype Viewport = Viewport(x: int, z: int, altitude: int)

  /** The state change of `keyPressed(keyCode)`; `minY` and `maxY` are `Block.MIN_Y` and
      `Block.MAX_Y`. */
  function AfterKey(v: Viewport, keyCode: int, minY: int, maxY: int): Viewport {
    if keyCode == VK_UP then v.(z := v.z - 1)
    else if keyCode == VK_DOWN then v.(z := v.z + 1)
    else if keyCode == VK_LEFT then v.(x := v.x - 1)
    else if keyCode == VK_RIGHT then v.(x := v.x + 1)
    else if keyCode == VK_PAGE_UP then v.(altitude := Validate(v.altitude + 1, minY, maxY - 1))
    else if keyCode == VK_PAGE_DOWN then v.(altitude := Validate(v.altitude - 1, minY, maxY - 1))
    else v
  }

  /** Each key moves one coordinate by one step and leaves the others alone; the page keys
      clamp the altitude into `[minY, maxY - 1]`; any other key changes nothing. */
  lemma AfterKeyMoves(v: Viewport, keyCode: int, minY: int, maxY: int)
    requires minY < maxY
    ensures var r := AfterKey(v, keyCode, minY, maxY);
      && (keyCode == VK_UP ==> r == Viewport(v.x, v.z - 1, v.altitude))
      && (keyCode == VK_DOWN ==> r == Viewport(v.x, v.z + 1, v.altitude))
      && (keyCode == VK_LEFT ==> r == Viewport(v.x - 1, v.z, v.altitude))
      && (keyCode == VK_RIGHT ==> r == Viewport(v.x + 1, v.z, v.altitude))
      && (keyCode == VK_PAGE_UP ==> r == v.(altitude := Validate(v.altitude + 1, minY, maxY - 1)))
      && (keyCode == VK_PAGE_DOWN ==> r == v.(altitude := Validate(v.altitude - 1, minY, maxY - 1)))
      && (keyCode == VK_PAGE_UP || keyCode == VK_PAGE_DOWN ==>
            r.x == v.x && r.z == v.z && minY <= r.altitude <= maxY - 1)
      && (keyCode == VK_PAGE_UP && v.altitude >= maxY - 1 ==> r.altitude == maxY - 1)
      && (keyCode == VK_PAGE_DOWN && v.altitude <= minY ==> r.altitude == minY)
      && (keyCode == VK_PAGE_UP && minY <= v.altitude + 1 <= maxY - 1 ==> r.altitude == v.altitude + 1)
      && (keyCode == VK_PAGE_DOWN && minY <= v.altitude - 1 <= maxY - 1 ==> r.altitude == v.altitude - 1)
      && (keyCode !in {VK_UP, VK_DOWN, VK_LEFT, VK_RIGHT, VK_PAGE_UP, VK_PAGE_DOWN} ==> r == v)
  {
  }

  /** Opposite keys undo each other; for the page keys, as long as no clamp intervenes. */
  lemma OppositeKeysCancel(v: Viewport, minY: int, maxY: int)
    requires minY < maxY
    ensures AfterKey(AfterKey(v, VK_UP, minY, maxY), VK_DOWN, minY, maxY) == v
    ensures AfterKey(AfterKey(v, VK_LEFT, minY, maxY), VK_RIGHT, minY, maxY) == v
    ensures minY <= v.altitude < maxY - 1 ==>
              AfterKey(AfterKey(v, VK_PAGE_UP, minY, maxY), VK_PAGE_DOWN, minY, maxY) == v
  {
  }

  /** The altitude never leaves `[minY, maxY - 1]` once it is inside, whatever keys follow. */
  lemma {:induction false} AltitudeStaysInRange(v: Viewport, keys: seq<int>, minY: int, maxY: int)
    requires minY < maxY && minY <= v.altitude <= maxY - 1
    ensures minY <= AfterKeys(v, keys, minY, maxY).altitude <= maxY - 1
    decreases |keys|
  {
    if keys != [] {
      AltitudeStaysInRange(AfterKey(v, keys[0], minY, maxY), keys[1..], minY, maxY);
    }
  }

  /** The view after a sequence of key presses. */
  function AfterKeys(v: Viewport, keys: seq<int>, minY: int, maxY: int): Viewport
    decreases |keys|
  {
    if keys == [] then v else AfterKeys(AfterKey(v, keys[0], minY, maxY), keys[1..], minY, maxY)
  }

  class TileCanvas {
    /** `Block.MIN_Y` and `Block.MAX_Y`. */
    const minY: int
    const maxY: int
    var x: int
    var z: int
    var altitude: int

    function View(): Viewport
      reads this
    {
      Viewport(x, z, altitude)
    }

    /** The fields start as Java's `int` default, 0; the constructor does not set them (the
        preferences are read only by `restore`, which is not part of this model). */
    constructor (minY: int, maxY: int)
      requires minY < maxY
      ensures this.minY == minY && this.maxY == maxY
      ensures View() == Viewport(0, 0, 0)
    {
      this.minY := minY;
      this.maxY := maxY;
      x, z, altitude := 0, 0, 0;
    }

    method SetTileX(x: int)
      modifies this
      ensures View() == old(View()).(x := x)
    {
      this.x := x;
    }

    method SetTileZ(z: int)
      modifies this
      ensures View() == old(View()).(z := z)
    {
      this.z := z;
    }

    /** `setAltitude`: stores the altitude clamped into `[MIN_Y, MAX_Y - 1]`. */
    method SetAltitude(altitude: int)
      modifies this
      ensures View() == old(View()).(altitude := Validate(altitude, minY, maxY - 1))
      ensures minY < maxY ==> minY <= this.altitude <= maxY - 1
    {
      this.altitude := Validate(altitude, minY, maxY - 1);
    }

    /** The state update of `keyPressed`: the arrow keys move the view one tile, the page keys
        move the altitude one level through `setAltitude`. */
    method KeyPressed(keyCode: int)
      modifies this
      ensures View() == AfterKey(old(View()), keyCode, minY, maxY)
    {
      if keyCode == VK_UP {
        SetTileZ(z - 1);
      } else if keyCode == VK_DOWN {
        SetTileZ(z + 1);
      } else if keyCode == VK_LEFT {
        SetTileX(x - 1);
      } else if keyCode == VK_RIGHT {
        SetTileX(x + 1);
      } else if keyCode == VK_PAGE_UP {
        SetAltitude(altitude + 1);
      } else if keyCode == VK_PAGE_DOWN {
        SetAltitude(altitude - 1);
      }
    }
  }

  /** A sprite record found by the background search, with how many levels below the starting
      altitude it lies (the source darkens the image by 0.05 per level). */
  datatype Shaded<R> = Shaded(record: R, depth: nat)

  /** `getTile(x, y, z)`: the sprite record of the block there, `null` when there is no block
      or the register has no record for its id. `blockId` is `Block.getBlockID` and `records`
      the register loaded at start-up. */
  function GetTile<C, B, R>(w: World<C, B>, ext: Extents, blockId: B -> int, records: int -> Option<R>,
                            x: int, y: int, z: int): (r: Call<Option<R>>)
    requires ext.Valid()
    ensures GetBlock(w, ext, x, y, z).Threw? <==> r.Threw?
    ensures GetBlock(w, ext, x, y, z) == Returned(None) ==> r == Returned(None)
    ensures GetBlock(w, ext, x, y, z).Returned? && GetBlock(w, ext, x, y, z).value.Some? ==>
              r == Returned(records(blockId(GetBlock(w, ext, x, y, z).value.value)))
  {
    match GetBlock(w, ext, x, y, z)
    case Threw => Threw
    case Returned(None) => Returned(None)
    case Returned(Some(block)) => Returned(records(blockId(block)))
  }

  /** The search of `getBackgroundTile` from altitude `y` down to `MIN_Y`, `depth` levels
      already passed. */
  function ScanDown<C, B, R>(w: World<C, B>, ext: Extents, blockId: B -> int, records: int -> Option<R>,
                             x: int, y: int, z: int, depth: nat): Call<Option<Shaded<R>>>
    requires ext.Valid()
    decreases y - ext.minY + 1
  {
    if y < ext.minY then Returned(None)
    else match GetTile(w, ext, blockId, records, x, y, z)
      case Threw => Threw
      case Returned(Some(s)) => Returned(Some(Shaded(s, depth)))
      case Returned(None) => ScanDown(w, ext, blockId, records, x, y - 1, z, depth + 1)
  }

  /** What the search finds is the first level from `y` downward that has a sprite, not below
      `MIN_Y`, with every level passed over empty. */
  lemma {:induction false} ScanDownFinds<C, B, R>(w: World<C, B>, ext: Extents, blockId: B -> int,
                                                 records: int -> Option<R>, x: int, y: int, z: int, depth: nat)
    requires ext.Valid()
    ensures match ScanDown(w, ext, blockId, records, x, y, z, depth)
      case Returned(Some(found)) =>
        && found.depth >= depth
        && var level := y - (found.depth - depth);
           && ext.minY <= level <= y
           && GetTile(w, ext, blockId, records, x, level, z) == Returned(Some(found.record))
           && forall l :: level < l <= y ==> GetTile(w, ext, blockId, records, x, l, z) == Returned(None)
      case Returned(None) =>
        forall l :: ext.minY <= l <= y ==> GetTile(w, ext, blockId, records, x, l, z) == Returned(None)
      case Threw => true
    decreases y - ext.minY + 1
  {
    if y >= ext.minY && GetTile(w, ext, blockId, records, x, y, z) == Returned(None) {
      ScanDownFinds(w, ext, blockId, records, x, y - 1, z, depth + 1);
    }
  }

  /** `getBackgroundTile(x, y, z)`: walks down from `y` while `y >= MIN_Y` and answers the first
      sprite found, or `null`; an exception of a lookup propagates. */
  method GetBackgroundTile<C, B, R>(w: World<C, B>, ext: Extents, blockId: B -> int,
                                    records: int -> Option<R>, x: int, y: int, z: int)
    returns (r: Call<Option<Shaded<R>>>)
    requires ext.Valid()
    ensures r == ScanDown(w, ext, blockId, records, x, y, z, 0)
  {
    var level := y;
    var depth: nat := 0;
    while level >= ext.minY
      invariant level <= y && depth == y - level
      invariant ScanDown(w, ext, blockId, records, x, y, z, 0)
             == ScanDown(w, ext, blockId, records, x, level, z, depth)
      decreases level - ext.minY + 1
    {
      var sprite := GetTile(w, ext, blockId, records, x, level, z);
      if sprite.Threw? {
        return Threw;
      }
      if sprite.value.Some? {
        return Returned(Some(Shaded(sprite.value.value, depth)));
      }
      level := level - 1;
      depth := depth + 1;
    }
    return Returned(None);
  }
}
