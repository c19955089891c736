# charmony-nano feature lifecycle, tooltip grid and tooltip callback in Dafny

This project models three pieces of the charmony-nano scaffold and proves
what they promise.

- **`Mod`, the feature lifecycle orchestrator** (`mod.dfy`, `feature_types.dfy`).
  A mod keeps a registry of feature classes for each side (common, client,
  server). `run(side)` does the following for one side:
  1. It sorts the side's classes by priority, stably.
  2. It instantiates them in that order. The first constructor that throws
     aborts the run, and instances built before it stay.
  3. It indexes each instance under its class and appends it to the side's
     feature list.
  4. It has the configuration read from disk and then written back.
  5. It runs the boot steps of enabled features.
  6. It runs every enabled feature in list order and skips the disabled ones.

  `Mod` is a Dafny class. Its fields are the four registry maps and a trace
  of what it causes outside them: configuration calls, boot steps run, and
  features run or skipped. `ModFeature` is a class because the configuration
  step changes its `enabled` flag in place. Feature classes are values
  (`FeatureType`) that carry the side and priority their `@Feature`
  annotation declares.
- **`ItemContainerTooltip`** (`item_container_tooltip.dfy`). The tooltip
  blits a background sized to a grid of slots. It then walks the grid row by
  row with a running index and renders each slot. A slot draws the slot
  sprite, and it draws the item and its decorations when the index has an
  item. `defaultRenderImage` is a method with the source's two nested loops.
  It returns the background blit and the `renderSlotWithIndex` calls it
  makes. What each call draws is a sequence of draw commands.
- **`RenderTooltipComponentCallback`** (`render_tooltip_component_callback.dfy`).
  The invoker asks the listeners in turn for a tooltip component for the
  hovered stack. It returns the first one offered and asks no listener after
  it.

The external collaborators become parameters:

| collaborator | becomes |
|---|---|
| a class's constructor | an oracle `construct: FeatureType -> Construction`, either `Constructed(bootSteps)` or `ConstructorThrew` |
| the boot steps a constructor registers through `addBootStep` | part of the oracle's answer |
| the stored configuration | an oracle `stored: FeatureType -> bool` for each feature's `enabled` flag |
| the order in which the boot-step `HashMap` yields its features | a nondeterministic choice, returned as the ghost `order` |

`wrappers.dfy` holds `Option` and `Result`, for Java's `Optional` and exceptions.

## Model

| member | source | states |
|---|---|---|
| FeatureTypes.SortByPriority | src/main/java/svenhjol/charmony/scaffold/base/Mod.java:35 | The sorted class list is ordered by non-decreasing priority. It is a permutation of the registered classes. For every priority it keeps the classes of that priority in registration order, so the sort is stable. |
| FeatureTypes.InsertByPriority | src/main/java/svenhjol/charmony/scaffold/base/Mod.java:35 | Inserting a class into a sorted list keeps the list sorted and adds exactly that class. The class goes ahead of the classes of equal priority. |
| FeatureTypes.StableSortIsUnique | src/main/java/svenhjol/charmony/scaffold/base/Mod.java:35 | Two lists that are both sorted by priority and keep the same order within every priority are equal. |
| FeatureTypes.SortByPriorityIsUnique | src/main/java/svenhjol/charmony/scaffold/base/Mod.java:35 | Any sorted, stable arrangement of the classes is `SortByPriority` of them. So any stable sort by priority, `List.sort` included, leaves exactly the modelled order. |
| Lifecycle.SortedMembers | src/main/java/svenhjol/charmony/scaffold/base/Mod.java:35 | Sorting neither loses nor adds a class. |
| Lifecycle.SortedFrom | src/main/java/svenhjol/charmony/scaffold/base/Mod.java:35 | Sorting a side's class list keeps every class on that side. |
| Lifecycle.FirstFailure | src/main/java/svenhjol/charmony/scaffold/base/Mod.java:37-46 | The instantiation loop gets as far as the first class whose constructor throws, or to the end. Every class before that point was constructed. |
| Lifecycle.IndexedLookup | src/main/java/svenhjol/charmony/scaffold/base/Mod.java:41 | After the `put` calls, `featureForClass` has as keys the classes it had plus the classes put. A class not put keeps its instance. A class put holds the instance from its last put, which for distinct classes is the very instance built for it. |
| Lifecycle.IndexedKeys | src/main/java/svenhjol/charmony/scaffold/base/Mod.java:41 | The keys of `featureForClass` after the puts are exactly the classes it had plus the classes put. |
| Lifecycle.IndexedKeeps | src/main/java/svenhjol/charmony/scaffold/base/Mod.java:41 | A class that is never put keeps its instance. |
| Lifecycle.IndexedLastPut | src/main/java/svenhjol/charmony/scaffold/base/Mod.java:41 | A class holds the instance from its last put, whatever was put under it before. |
| Lifecycle.IndexedKinds | src/main/java/svenhjol/charmony/scaffold/base/Mod.java:41 | Every instance in `featureForClass` is an instance of the class it is stored under. |
| Lifecycle.WithBootStepsKeys | src/main/java/svenhjol/charmony/scaffold/base/Mod.java:101-103 | The constructors register boot steps only for the instances being built. |
| Lifecycle.StepsRunForStepEvents | src/main/java/svenhjol/charmony/scaffold/base/Mod.java:56 | Running one feature's boot list runs exactly its steps, in the order they were added, and runs them for that feature only. |
| Lifecycle.BootStepsRun | src/main/java/svenhjol/charmony/scaffold/base/Mod.java:53-58 | In the boot phase, each feature's steps run in the order they were added if it is enabled, and none run if it is disabled. The phase runs nothing but boot steps, and only those of enabled features. |
| Lifecycle.BootStepsRunFor | src/main/java/svenhjol/charmony/scaffold/base/Mod.java:53-58 | Whatever order the table yields, a feature's boot steps run in the order added if it is enabled, and none run if it is disabled or has no entry. |
| Lifecycle.BootEventOwners | src/main/java/svenhjol/charmony/scaffold/base/Mod.java:53-58 | Every event of the boot phase is a boot step of an enabled feature visited in that phase. |
| Lifecycle.FeaturesRun | src/main/java/svenhjol/charmony/scaffold/base/Mod.java:61-69 | The run phase visits the features in list order, one event per feature. The feature is run exactly when it is enabled and skipped otherwise. |
| Lifecycle.Mod.constructor | src/main/java/svenhjol/charmony/scaffold/base/Mod.java:13-21 | A new mod has empty registries and an empty trace. |
| Lifecycle.Mod.AddFeature | src/main/java/svenhjol/charmony/scaffold/base/Mod.java:96-99 | The class is appended to the list of the side it declares, and that list is created if absent. Every other side's list and every other field are unchanged. |
| Lifecycle.Mod.AddBootStep | src/main/java/svenhjol/charmony/scaffold/base/Mod.java:101-103 | The step is appended to the feature's list under the feature's own side, and the table and list are created if absent. The other sides' tables and every other field are unchanged. |
| Lifecycle.Mod.TryFeature | src/main/java/svenhjol/charmony/scaffold/base/Mod.java:90-94 | Returns a value exactly when the class was instantiated, and that value is an instance of exactly that class. The same instance is on its side's list in `Features`. A class never registered for its side gives nothing. |
| Lifecycle.Mod.Feature | src/main/java/svenhjol/charmony/scaffold/base/Mod.java:86-88 | Returns the same instance as `TryFeature`, or a failure that names the class when there is none. A class never registered for its side always fails. |
| Lifecycle.Mod.Features | src/main/java/svenhjol/charmony/scaffold/base/Mod.java:105-107 | Returns a list for exactly the sides that have one, each side's full instance list, holding only instances of that side. |
| Lifecycle.Mod.Construct | src/main/java/svenhjol/charmony/scaffold/base/Mod.java:37-46 | The loop builds one fresh instance per class, in order, up to the first constructor that throws. Each instance is indexed under its class, and the boot steps its constructor registered are added. |
| Lifecycle.Mod.Instantiate | src/main/java/svenhjol/charmony/scaffold/base/Mod.java:37-46 | The instantiation loop walks the side's class list. It appends the new instances to the side's instance list in class order and indexes them. It stops at the first throwing constructor without rolling back. Classes and trace are unchanged, and only registered classes are indexed, and every indexed instance is on its side's list (`Valid`). |
| Lifecycle.Mod.Configure | src/main/java/svenhjol/charmony/scaffold/base/Mod.java:48-50 | Populate and then write are each called once, with the full instance list. Every instance's `enabled` flag is the stored value for its class. |
| Lifecycle.Mod.RunSteps | src/main/java/svenhjol/charmony/scaffold/base/Mod.java:56 | Runs one feature's boot steps in list order. |
| Lifecycle.Mod.RunBootSteps | src/main/java/svenhjol/charmony/scaffold/base/Mod.java:52-58 | Visits every feature of the side's boot table exactly once, in some order. It runs the steps of the enabled features and nothing else. |
| Lifecycle.Mod.RunFeatures | src/main/java/svenhjol/charmony/scaffold/base/Mod.java:60-69 | Runs each enabled feature and skips each disabled one, in list order. |
| Lifecycle.Mod.ConfigureBootAndRun | src/main/java/svenhjol/charmony/scaffold/base/Mod.java:48-69 | The trace is the configuration calls, then the boot phase, then the run phase, in that order. The boot table is created if absent, and the registries are otherwise unchanged. |
| Lifecycle.Mod.SortClasses | src/main/java/svenhjol/charmony/scaffold/base/Mod.java:25-35 | Both lists of the side are found or created. The class list is replaced by its stable sort by priority. |
| Lifecycle.Mod.SortAndInstantiate | src/main/java/svenhjol/charmony/scaffold/base/Mod.java:25-46 | Sorts the side's classes, then instantiates them in sorted order up to the first throwing constructor. The other sides' boot tables are unchanged. |
| Lifecycle.Mod.SetUp | src/main/java/svenhjol/charmony/scaffold/base/Mod.java:34-69 | `run` for a side that has classes. On a constructor failure the result names the class, with nothing configured, booted or run. Otherwise it completes with the full trace. |
| Lifecycle.Mod.Run | src/main/java/svenhjol/charmony/scaffold/base/Mod.java:23-70 | With no classes for the side, `run` returns after only creating the two empty lists. Otherwise it performs the whole lifecycle as above, and the registries stay consistent (`Valid`). |
| RenderTooltipComponentCallback.InvokeFrom | src/main/java/svenhjol/charmony/scaffold/events/RenderTooltipComponentCallback.java:13-21 | From a given listener on, listeners are called in order, each with the same stack. The result is the first present result, and no listener after it is called. When none is present the result is empty and every listener was called. |
| RenderTooltipComponentCallback.Invoke | src/main/java/svenhjol/charmony/scaffold/events/RenderTooltipComponentCallback.java:12-22 | The invoker returns the first present listener result in listener order, or empty when there is none (no listeners included). It calls only listeners up to that one, each with the same stack. |
| RenderTooltipComponentCallback.FirstPresentWins | src/main/java/svenhjol/charmony/scaffold/events/RenderTooltipComponentCallback.java:17-18 | The first listener with a present result decides both the result and how many listeners are called. |
| ItemContainerTooltip.BackgroundWidth | src/main/java/svenhjol/charmony/scaffold/client/ItemContainerTooltip.java:26-28 | The width is the last column's right edge plus a one-pixel border. `ImageBackground` and `SlotsWithinBackground` state where the background is drawn and how the slots fit in it. |
| ItemContainerTooltip.BackgroundHeight | src/main/java/svenhjol/charmony/scaffold/client/ItemContainerTooltip.java:30-32 | The height stops one pixel short of the last row's bottom edge, because every row is drawn one pixel down. |
| ItemContainerTooltip.MarginY | src/main/java/svenhjol/charmony/scaffold/client/ItemContainerTooltip.java:34-36 | The vertical margin is 6 pixels. |
| ItemContainerTooltip.RenderSlot | src/main/java/svenhjol/charmony/scaffold/client/ItemContainerTooltip.java:64-66 | Draws `Texture.SLOT`'s sprite at its 18 by 20 size with its corner at `(x, y)`. Its behaviour in the tooltip is stated by `OnlyInSlot` and `CallSlots`. |
| ItemContainerTooltip.RenderSlotWithIndex | src/main/java/svenhjol/charmony/scaffold/client/ItemContainerTooltip.java:53-62 | One slot's commands. `OnlyInSlot` states them by kind: always the slot sprite, and the item and its decorations exactly when the index has an item. |
| ItemContainerTooltip.DefaultRenderImage | src/main/java/svenhjol/charmony/scaffold/client/ItemContainerTooltip.java:38-51 | The background is blitted at `(x, y)`, `backgroundWidth()` wide and `backgroundHeight()` high. Then one `renderSlotWithIndex` call is made per grid cell, `gx * gy` calls in all (none if a size is not positive). The k-th call has index `k` and is at column `k % gx`, row `k / gx`, that is at `(x + col*18 + 1, y + row*20 + 1)`. |
| ItemContainerTooltip.GridCellIndex | src/main/java/svenhjol/charmony/scaffold/client/ItemContainerTooltip.java:42-50 | The cell at column `xx` and row `yy` gets running index `yy * gx + xx`. That index is below `gx * gy` and gives back the cell. |
| ItemContainerTooltip.SlotIndexInGrid | src/main/java/svenhjol/charmony/scaffold/client/ItemContainerTooltip.java:42-50 | Every index below `gx * gy` belongs to exactly one cell of the grid. So the indices `0 .. gx*gy-1` each occur once, in increasing order. |
| ItemContainerTooltip.OnlyInSlot | src/main/java/svenhjol/charmony/scaffold/client/ItemContainerTooltip.java:53-66 | One slot always draws exactly one slot sprite. It draws one item and one set of decorations at `(x + 1, y + 1)`, the item seeded with the index, exactly when `index < items.size()`. It draws no background. |
| ItemContainerTooltip.NoBackgroundInCalls | src/main/java/svenhjol/charmony/scaffold/client/ItemContainerTooltip.java:53-66 | Rendering slots never draws the background sprite. |
| ItemContainerTooltip.CallSlots | src/main/java/svenhjol/charmony/scaffold/client/ItemContainerTooltip.java:53-66 | Each call draws one slot sprite, `Texture.SLOT`'s 18 by 20, at the call's position and in call order. |
| ItemContainerTooltip.CallItems | src/main/java/svenhjol/charmony/scaffold/client/ItemContainerTooltip.java:53-62 | Calls numbered 0, 1, 2, ... draw exactly the items of `ItemsFor`, in order. |
| ItemContainerTooltip.ItemsForLayout | src/main/java/svenhjol/charmony/scaffold/client/ItemContainerTooltip.java:53-62 | An item is drawn for exactly the first `min(items.size(), calls)` calls. The i-th is `items[i]`, one pixel inside the i-th slot and seeded with `i`. |
| ItemContainerTooltip.ImageBackground | src/main/java/svenhjol/charmony/scaffold/client/ItemContainerTooltip.java:26-41 | The background is drawn first and only once, at the corner, `gx * 18 + 2` wide and `gy * 20` high. |
| ItemContainerTooltip.ImageSlots | src/main/java/svenhjol/charmony/scaffold/client/ItemContainerTooltip.java:38-66 | The tooltip draws `gx * gy` slot sprites in running-index order. The k-th is 18 by 20 at `(x + (k % gx)*18 + 1, y + (k / gx)*20 + 1)`. |
| ItemContainerTooltip.ImageItems | src/main/java/svenhjol/charmony/scaffold/client/ItemContainerTooltip.java:38-62 | The tooltip draws `min(items.size(), gx * gy)` items in running-index order. The k-th is `items[k]`, seeded with `k`, one pixel inside slot k. |
| ItemContainerTooltip.SlotsWithinBackground | src/main/java/svenhjol/charmony/scaffold/client/ItemContainerTooltip.java:16-36 | The slot sprite is 18 by 20 and `marginY()` is 6. The slots start one pixel inside the background. The last column ends one pixel inside its right edge, and the last row ends one pixel below its bottom edge. |

## Left out

- Logging (`Log`, every `log.info` message), `id()`, `id(path)` and `name()`. They are text and Minecraft or reflection calls.
- Reflection and annotations. A class is the value `FeatureType(name, side, priority)`, and `getDeclaredConstructor().newInstance` is the `construct` oracle.
- The exception that `run` rethrows when a constructor fails. It is modelled as the result `InstantiationFailed(class, side)` of `Run`. The state is what the loop had built by then, except for the boot steps of the failing constructor (next line).
- Lifecycle.Mod.Construct: a constructor registers boot steps only for its own new instance, and only when it returns. A Java constructor holds the mod, so it could call `addBootStep` and then throw, leaving steps under a half-built instance. It could also register steps for another feature. Neither is modelled, and `Lifecycle.WithBootStepsKeys` holds only under this restriction.
- `Config`'s internals (reading and writing files). The configuration step is two trace events plus setting each instance's `enabled` flag to the stored value for its class.
- The initial value of `enabled` before configuration. It is `true` in the model, and configuration overwrites it for every instance in the side's list.
- What a boot step or a feature's `run()` does. Each is recorded as a trace event.
- Lifecycle.Mod.RunBootSteps and Lifecycle.Mod.RunFeatures: a boot step or a feature's `run()` that throws is not modelled. In Java the exception escapes `forEach` and the loop uncaught. It abandons the remaining steps, features and phases of `run(side)`, and nothing is rolled back. The model's boot and run phases always complete.
- Side effects of those calls on the mod itself (for example, a boot step calling `addFeature`) are not modelled.
- The iteration order of the boot-step `HashMap`. `Run` promises the boot events for some order that lists every feature of the table once. `Lifecycle.BootStepsRun` states what holds for every such order.
- Lifecycle.Mod.Instantiate: the model runs the loop on local copies and commits `featureForClass`, the side's list and the boot table once at the end. The Java code updates them in place on each pass. This makes no observable difference to the final state, which `Instantiate` states exactly, but intermediate states are not modelled. `Instantiate` always adds the side's boot table, possibly empty, where Java creates it only in `addBootStep` or at the boot phase. Every reader goes through `computeIfAbsent`, so none can tell.
- Lifecycle.Mod.Features: Java returns the live `LinkedHashMap`, and a caller could change the mod's registry through it. The model returns the map as a value, so that aliasing is not modelled.
- Java's 32-bit `int`: grid sizes, coordinates and indices are unbounded integers, so overflow for huge grids is not modelled.
- The actual drawing by `GuiGraphics` (`blitSprite`, `renderItem`, `renderItemDecorations`) and `Font`. Each call is a draw command value.
- `RenderType::guiTextured` and the sprites' `ResourceLocation`s. The two sprites are `BackgroundSprite` and `SlotSprite`.
- ItemContainerTooltip.DefaultRenderImage: the method returns the background blit and the `renderSlotWithIndex` calls it makes. `Image` composes them with `RenderSlotWithIndex` into the full command sequence.
- The positions of item decorations are stated per slot (`OnlyInSlot`), not summarised over the whole grid.
- `renderSlotWithIndex` with a negative index, which would throw in Java. `defaultRenderImage` never passes one.
- Fabric's `EventFactory.createArrayBacked` and `Event`. Only the invoker lambda is modelled, over the sequence of listeners' answers.
- Diagnostics.java is not part of this model (configuration flags and a logged warning banner).
