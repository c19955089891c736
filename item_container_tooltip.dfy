/**
 * The layout of an item-container tooltip: a background sized to a grid of
 * slots, the slots visited row by row, and an item drawn in every slot whose
 * index has an item. Drawing is modelled as the sequence of draw commands
 * the tooltip issues.
 */
module ItemContainerTooltip {

  const MARGIN_Y: int := 6
  const SLOT_SIZE_X: int := 18
  const SLOT_SIZE_Y: int := 20

  /** The two sprites the tooltip blits. */
  datatype Sprite = BackgroundSprite | SlotSprite

  /** `Texture`: a sprite with the size it is drawn at. */
  datatype Texture = Texture(sprite: Sprite, width: int, height: int)

  /** `Texture.SLOT`. */
  const SLOT: Texture := Texture(SlotSprite, SLOT_SIZE_X, SLOT_SIZE_Y)

  /** A call the tooltip makes on `GuiGraphics`. */
  datatype Draw<Item> =
    | Blit(sprite: Sprite, x: int, y: int, width: int, height: int)
    | RenderItem(stack: Item, x: int, y: int, seed: int)
    | RenderDecorations(stack: Item, x: int, y: int)

  /** `backgroundWidth()`: the columns of slots with a one-pixel border left and right. */
  function BackgroundWidth(gridSizeX: int): (w: int)
    ensures gridSizeX > 0 ==> SlotX(0, gridSizeX - 1) + SLOT.width + 1 == w
  {
    gridSizeX * SLOT_SIZE_X + 2
  }

  /**
   * `backgroundHeight()`: the rows of slots, with no border; the last row,
   * drawn one pixel down, overhangs the bottom edge by one pixel.
   */
  function BackgroundHeight(gridSizeY: int): (h: int)
    ensures gridSizeY > 0 ==> SlotY(0, gridSizeY - 1) + SLOT.height == h + 1
  {
    gridSizeY * SLOT_SIZE_Y
  }

  /** `marginY()`: the vertical margin of the tooltip, six pixels. */
  function MarginY(): (m: int)
    ensures m == 6
  {
    MARGIN_Y
  }

  /** Where the slot in column `xx` and row `yy` is drawn. */
  function SlotX(x: int, xx: int): int { x + xx * 18 + 1 }
  function SlotY(y: int, yy: int): int { y + yy * 20 + 1 }

  /** How many slots the two nested loops visit. */
  function SlotCount(gridSizeX: int, gridSizeY: int): nat
  {
    if gridSizeX <= 0 || gridSizeY <= 0 then 0 else gridSizeX * gridSizeY
  }

  /** `renderSlot`: the slot sprite, at its 18 by 20 size, with its corner at `(x, y)`. */
  function RenderSlot<Item>(x: int, y: int): Draw<Item>
  {
    Blit(SLOT.sprite, x, y, SLOT.width, SLOT.height)
  }

  /**
   * `renderSlotWithIndex`: the slot, then the item and its decorations if
   * there is one.
   */
  function RenderSlotWithIndex<Item>(items: seq<Item>, index: nat, x: int, y: int): seq<Draw<Item>>
  {
    if index >= |items| then [RenderSlot(x, y)]
    else [RenderSlot(x, y), RenderItem(items[index], x + 1, y + 1, index), RenderDecorations(items[index], x + 1, y + 1)]
  }

  /** A call `renderSlotWithIndex(guiGraphics, font, index, x, y)`. */
  datatype SlotCall = SlotCall(index: nat, x: int, y: int)

  /**
   * The calls of a grid `gx` slots wide in row-major order: the `k`-th call
   * is for running index `k`, at the slot in column `k % gx` and row `k / gx`.
   */
  ghost predicate RowMajor(calls: seq<SlotCall>, x: int, y: int, gx: int)
  {
    forall k :: 0 <= k < |calls| ==> gx > 0 && calls[k] == SlotCall(k, SlotX(x, k % gx), SlotY(y, k / gx))
  }

  /** How many times `for (int i = 0; i < n; ++i)` runs its body. */
  function Count(n: int): nat
  {
    if n > 0 then n else 0
  }

  /**
   * `defaultRenderImage`: blits the background, then walks the grid row by
   * row with a running slot index and calls `renderSlotWithIndex` for each
   * slot. The blit and the calls are returned in the order they are made.
   */
  method DefaultRenderImage<Item>(x: int, y: int, gridSizeX: int, gridSizeY: int)
    returns (background: Draw<Item>, calls: seq<SlotCall>)
    ensures background == Blit(BackgroundSprite, x, y, BackgroundWidth(gridSizeX), BackgroundHeight(gridSizeY))
    ensures |calls| == SlotCount(gridSizeX, gridSizeY)
    ensures RowMajor(calls, x, y, gridSizeX)
  {
    var gx := gridSizeX;
    var gy := gridSizeY;
    background := Blit(BackgroundSprite, x, y, BackgroundWidth(gx), BackgroundHeight(gy));
    calls := [];
    var index := 0;
    var yy := 0;
    while yy < gy
      invariant 0 <= yy <= Count(gy)
      invariant index == |calls| && RowMajor(calls, x, y, gx)
      invariant |calls| == yy * Count(gx)
    {
      var xx := 0;
      while xx < gx
        invariant 0 <= xx <= Count(gx)
        invariant index == |calls| && RowMajor(calls, x, y, gx)
        invariant |calls| == yy * Count(gx) + xx
      {
        var slotX := x + xx * 18 + 1;
        var slotY := y + yy * 20 + 1;
        DivModUnique(index, gx, yy, xx);
        calls := calls + [SlotCall(index, slotX, slotY)];
        index := index + 1;
        xx := xx + 1;
      }
      assert (yy + 1) * Count(gx) == yy * Count(gx) + Count(gx);
      yy := yy + 1;
    }
    assert gy > 0 ==> yy * Count(gx) == SlotCount(gx, gy);
  }

  /** Dividing `q * d + r` by `d` gives back `q` and `r` when `r` is a remainder. */
  lemma DivModUnique(n: int, d: int, q: int, r: int)
    requires d > 0 && 0 <= r < d && n == q * d + r
    ensures n / d == q && n % d == r
  {
    ZeroMultiple(q - n / d, d);
  }

  lemma ZeroMultiple(a: int, d: int)
    requires d > 0 && -d < a * d < d
    ensures a == 0
  {
  }

  /** What `calls` draw, one call after the other. */
  function DrawCalls<Item>(items: seq<Item>, calls: seq<SlotCall>): seq<Draw<Item>>
  {
    if calls == [] then []
    else
      var c := calls[|calls| - 1];
      DrawCalls(items, calls[..|calls| - 1]) + RenderSlotWithIndex(items, c.index, c.x, c.y)
  }

  /** What a draw command draws. */
  datatype Kind = BackgroundKind | SlotKind | ItemKind | DecorationsKind

  function KindOf<Item>(d: Draw<Item>): Kind
  {
    match d
    case Blit(sprite, _, _, _, _) => if sprite == BackgroundSprite then BackgroundKind else SlotKind
    case RenderItem(_, _, _, _) => ItemKind
    case RenderDecorations(_, _, _) => DecorationsKind
  }

  /** The commands of `draws` that draw `kind`, in the order they are issued. */
  function Only<Item>(kind: Kind, draws: seq<Draw<Item>>): seq<Draw<Item>>
  {
    if draws == [] then []
    else Only(kind, draws[..|draws| - 1]) + (if KindOf(draws[|draws| - 1]) == kind then [draws[|draws| - 1]] else [])
  }

  lemma {:induction false} OnlyAppend<Item>(kind: Kind, a: seq<Draw<Item>>, b: seq<Draw<Item>>)
    ensures Only(kind, a + b) == Only(kind, a) + Only(kind, b)
  {
    if b != [] {
      assert (a + b)[..|a + b| - 1] == a + b[..|b| - 1];
      OnlyAppend(kind, a, b[..|b| - 1]);
    } else {
      assert a + b == a;
    }
  }

  /** A single command is kept exactly when it draws `kind`. */
  lemma OnlyOne<Item>(kind: Kind, d: Draw<Item>)
    ensures Only(kind, [d]) == if KindOf(d) == kind then [d] else []
  {
    assert [d][..0] == [];
  }

  /** The commands of one slot, sorted by kind. */
  lemma OnlyInSlot<Item>(kind: Kind, items: seq<Item>, index: nat, x: int, y: int)
    ensures Only(kind, RenderSlotWithIndex(items, index, x, y)) ==
            if kind == SlotKind then [RenderSlot(x, y)]
            else if kind == ItemKind && index < |items| then [RenderItem(items[index], x + 1, y + 1, index)]
            else if kind == DecorationsKind && index < |items| then [RenderDecorations(items[index], x + 1, y + 1)]
            else []
  {
    var s: Draw<Item> := RenderSlot(x, y);
    OnlyOne(kind, s);
    if index < |items| {
      var i, e := RenderItem(items[index], x + 1, y + 1, index), RenderDecorations(items[index], x + 1, y + 1);
      OnlyOne(kind, i);
      OnlyOne(kind, e);
      OnlyAppend(kind, [s], [i]);
      OnlyAppend(kind, [s] + [i], [e]);
      assert RenderSlotWithIndex(items, index, x, y) == [s] + [i] + [e];
    }
  }

  /** Rendering slots draws no background. */
  lemma {:induction false} NoBackgroundInCalls<Item>(items: seq<Item>, calls: seq<SlotCall>)
    ensures Only(BackgroundKind, DrawCalls(items, calls)) == []
  {
    if calls != [] {
      var front, c := calls[..|calls| - 1], calls[|calls| - 1];
      NoBackgroundInCalls(items, front);
      OnlyAppend(BackgroundKind, DrawCalls(items, front), RenderSlotWithIndex(items, c.index, c.x, c.y));
      OnlyInSlot(BackgroundKind, items, c.index, c.x, c.y);
    }
  }

  /** Every call draws one slot sprite of the size of `Texture.SLOT`, in the order of the calls, at the call's position. */
  lemma {:induction false} CallSlots<Item>(items: seq<Item>, calls: seq<SlotCall>)
    ensures |Only(SlotKind, DrawCalls(items, calls))| == |calls|
    ensures forall i :: 0 <= i < |calls| ==>
              Only(SlotKind, DrawCalls(items, calls))[i] == Blit(SlotSprite, calls[i].x, calls[i].y, SLOT_SIZE_X, SLOT_SIZE_Y)
  {
    if calls != [] {
      var front, c := calls[..|calls| - 1], calls[|calls| - 1];
      CallSlots(items, front);
      var slot := RenderSlotWithIndex(items, c.index, c.x, c.y);
      assert DrawCalls(items, calls) == DrawCalls(items, front) + slot;
      OnlyAppend(SlotKind, DrawCalls(items, front), slot);
      OnlyInSlot(SlotKind, items, c.index, c.x, c.y);
    }
  }

  /** Calls whose indices run 0, 1, 2, ... */
  ghost predicate Numbered(calls: seq<SlotCall>)
  {
    forall i :: 0 <= i < |calls| ==> calls[i].index == i
  }

  function Min(a: int, b: int): int { if a < b then a else b }

  /** The items numbered calls should draw: one per call whose index has an item. */
  function ItemsFor<Item>(items: seq<Item>, calls: seq<SlotCall>): seq<Draw<Item>>
  {
    if calls == [] then []
    else
      var n, c := |calls| - 1, calls[|calls| - 1];
      ItemsFor(items, calls[..n]) + (if n < |items| then [RenderItem(items[n], c.x + 1, c.y + 1, n)] else [])
  }

  /** Numbered calls draw exactly `ItemsFor`, in that order. */
  lemma {:induction false} CallItems<Item>(items: seq<Item>, calls: seq<SlotCall>)
    requires Numbered(calls)
    ensures Only(ItemKind, DrawCalls(items, calls)) == ItemsFor(items, calls)
  {
    if calls != [] {
      var n := |calls| - 1;
      var front, c := calls[..n], calls[n];
      assert Numbered(front);
      CallItems(items, front);
      var slot := RenderSlotWithIndex(items, c.index, c.x, c.y);
      var item: seq<Draw<Item>> := if n < |items| then [RenderItem(items[n], c.x + 1, c.y + 1, n)] else [];
      assert c.index == n;
      OnlyInSlot(ItemKind, items, n, c.x, c.y);
      assert Only(ItemKind, slot) == item;
      assert DrawCalls(items, calls) == DrawCalls(items, front) + slot;
      OnlyAppend(ItemKind, DrawCalls(items, front), slot);
      assert ItemsFor(items, calls) == ItemsFor(items, front) + item;
    }
  }

  /**
   * `ItemsFor` holds an item for exactly the first `items.size()` calls:
   * the `i`-th is `items[i]`, one pixel inside the `i`-th slot and seeded
   * with `i`.
   */
  lemma {:induction false} ItemsForLayout<Item>(items: seq<Item>, calls: seq<SlotCall>)
    ensures |ItemsFor(items, calls)| == Min(|items|, |calls|)
    ensures forall i :: 0 <= i < |calls| && i < |items| ==>
              ItemsFor(items, calls)[i] == RenderItem(items[i], calls[i].x + 1, calls[i].y + 1, i)
  {
    if calls != [] {
      var front := calls[..|calls| - 1];
      ItemsForLayout(items, front);
    }
  }

  /** Everything `defaultRenderImage` draws when it makes `calls`: the background, then what the calls draw. */
  function Image<Item>(items: seq<Item>, x: int, y: int, gx: int, gy: int, calls: seq<SlotCall>): seq<Draw<Item>>
  {
    [Blit(BackgroundSprite, x, y, BackgroundWidth(gx), BackgroundHeight(gy))] + DrawCalls(items, calls)
  }

  /**
   * The background is drawn first and only once, at the tooltip's corner,
   * `backgroundWidth()` by `backgroundHeight()`.
   */
  lemma ImageBackground<Item>(items: seq<Item>, x: int, y: int, gx: int, gy: int, calls: seq<SlotCall>)
    ensures var d := Image(items, x, y, gx, gy, calls);
            d[0] == Blit(BackgroundSprite, x, y, gx * 18 + 2, gy * 20) && Only(BackgroundKind, d) == [d[0]]
  {
    var bg: Draw<Item> := Blit(BackgroundSprite, x, y, BackgroundWidth(gx), BackgroundHeight(gy));
    OnlyAppend(BackgroundKind, [bg], DrawCalls(items, calls));
    OnlyOne(BackgroundKind, bg);
    NoBackgroundInCalls(items, calls);
  }

  /** The items a tooltip draws are those its numbered calls draw. */
  lemma ImageItemsFor<Item>(items: seq<Item>, x: int, y: int, gx: int, gy: int, calls: seq<SlotCall>)
    requires Numbered(calls)
    ensures Only(ItemKind, Image(items, x, y, gx, gy, calls)) == ItemsFor(items, calls)
  {
    var bg: Draw<Item> := Blit(BackgroundSprite, x, y, BackgroundWidth(gx), BackgroundHeight(gy));
    OnlyAppend(ItemKind, [bg], DrawCalls(items, calls));
    OnlyOne(ItemKind, bg);
    CallItems(items, calls);
    assert Only(ItemKind, Image(items, x, y, gx, gy, calls)) == [] + ItemsFor(items, calls);
  }

  /**
   * The calls of `defaultRenderImage` draw a slot sprite for every grid
   * cell, in running-index order: the `k`-th is drawn 18 by 20 pixels at
   * column `k % gx` and row `k / gx`.
   */
  lemma ImageSlots<Item>(items: seq<Item>, x: int, y: int, gx: int, gy: int, calls: seq<SlotCall>)
    requires |calls| == SlotCount(gx, gy) && RowMajor(calls, x, y, gx)
    ensures |Only(SlotKind, Image(items, x, y, gx, gy, calls))| == SlotCount(gx, gy)
    ensures forall k :: 0 <= k < SlotCount(gx, gy) ==>
              Only(SlotKind, Image(items, x, y, gx, gy, calls))[k] == Blit(SlotSprite, x + k % gx * 18 + 1, y + k / gx * 20 + 1, 18, 20)
  {
    ImageSlotsFor(items, x, y, gx, gy, calls);
    CallSlots(items, calls);
    var drawn := Only(SlotKind, DrawCalls(items, calls));
    forall k | 0 <= k < SlotCount(gx, gy)
      ensures drawn[k] == Blit(SlotSprite, x + k % gx * 18 + 1, y + k / gx * 20 + 1, 18, 20)
    {
      assert calls[k] == SlotCall(k, SlotX(x, k % gx), SlotY(y, k / gx));
    }
  }

  /** The slot sprites a tooltip draws are those its calls draw. */
  lemma ImageSlotsFor<Item>(items: seq<Item>, x: int, y: int, gx: int, gy: int, calls: seq<SlotCall>)
    ensures Only(SlotKind, Image(items, x, y, gx, gy, calls)) == Only(SlotKind, DrawCalls(items, calls))
  {
    var bg: Draw<Item> := Blit(BackgroundSprite, x, y, BackgroundWidth(gx), BackgroundHeight(gy));
    OnlyAppend(SlotKind, [bg], DrawCalls(items, calls));
    OnlyOne(SlotKind, bg);
    assert Only(SlotKind, Image(items, x, y, gx, gy, calls)) == [] + Only(SlotKind, DrawCalls(items, calls));
  }

  /**
   * The calls of `defaultRenderImage` draw an item for exactly the first
   * `min(items.size(), gx * gy)` slots, in running-index order: the `k`-th
   * is `items[k]`, seeded with `k`, one pixel inside the slot at column
   * `k % gx` and row `k / gx`.
   */
  lemma ImageItems<Item>(items: seq<Item>, x: int, y: int, gx: int, gy: int, calls: seq<SlotCall>)
    requires |calls| == SlotCount(gx, gy) && RowMajor(calls, x, y, gx)
    ensures |Only(ItemKind, Image(items, x, y, gx, gy, calls))| == Min(|items|, SlotCount(gx, gy))
    ensures forall k :: 0 <= k < SlotCount(gx, gy) && k < |items| ==>
              Only(ItemKind, Image(items, x, y, gx, gy, calls))[k] == RenderItem(items[k], x + k % gx * 18 + 2, y + k / gx * 20 + 2, k)
  {
    assert Numbered(calls);
    ImageItemsFor(items, x, y, gx, gy, calls);
    ItemsForLayout(items, calls);
    var drawn := ItemsFor(items, calls);
    forall k | 0 <= k < SlotCount(gx, gy) && k < |items|
      ensures drawn[k] == RenderItem(items[k], x + k % gx * 18 + 2, y + k / gx * 20 + 2, k)
    {
      assert calls[k] == SlotCall(k, SlotX(x, k % gx), SlotY(y, k / gx));
    }
  }

  /** Every cell of the grid gets an index below `gx * gy`, and that index gives back the cell. */
  lemma GridCellIndex(gx: int, gy: int, xx: int, yy: int)
    requires 0 <= xx < gx && 0 <= yy < gy
    ensures 0 <= yy * gx + xx < SlotCount(gx, gy)
    ensures (yy * gx + xx) % gx == xx && (yy * gx + xx) / gx == yy
  {
    DivModUnique(yy * gx + xx, gx, yy, xx);
    assert yy * gx <= (gy - 1) * gx;
  }

  /**
   * Row-major order is a one-to-one numbering of the grid: slot index `k`
   * below `gx * gy` lies in column `k % gx` and row `k / gx` of the grid and
   * is `row * gx + column`.
   */
  lemma SlotIndexInGrid(gx: int, gy: int, k: int)
    requires 0 <= k < SlotCount(gx, gy)
    ensures 0 <= k % gx < gx && 0 <= k / gx < gy
    ensures (k / gx) * gx + k % gx == k
  {
    DivBelow(k, gx, gy);
  }

  lemma DivBelow(k: int, d: int, m: int)
    requires d > 0 && 0 <= k < m * d
    ensures k / d < m
  {
    var q := k / d;
    assert q * d <= k;
    MulLess(q, m, d);
  }

  lemma MulLess(a: int, b: int, d: int)
    requires d > 0 && a * d < b * d
    ensures a < b
  {
  }

  /**
   * The slot sprites tile the background: the grid starts one pixel inside
   * its top-left corner, the last column ends one pixel inside its right
   * edge (`backgroundWidth()` has room for the two borders), and the last
   * row ends one pixel below its bottom edge (`backgroundHeight()` has no
   * border), inside the `MARGIN_Y` of 6 pixels.
   */
  lemma SlotsWithinBackground(x: int, y: int, gx: int, gy: int, xx: int, yy: int)
    requires 0 <= xx < gx && 0 <= yy < gy
    ensures x + 1 <= SlotX(x, xx) && SlotX(x, xx) + SLOT.width <= x + BackgroundWidth(gx) - 1
    ensures y + 1 <= SlotY(y, yy) && SlotY(y, yy) + SLOT.height <= y + BackgroundHeight(gy) + 1
    ensures SlotX(x, gx - 1) + SLOT.width == x + BackgroundWidth(gx) - 1
    ensures SlotY(y, gy - 1) + SLOT.height == y + BackgroundHeight(gy) + 1
    ensures SLOT.width == 18 && SLOT.height == 20 && MarginY() == 6
  {
    assert xx * 18 <= (gx - 1) * 18;
    assert yy * 20 <= (gy - 1) * 20;
  }
}
