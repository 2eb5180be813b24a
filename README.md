# GEGL handler chain and c2g region arithmetic, modelled in Dafny

This project models two parts of GEGL, the generic graphics library.

**The handler chain (`GeglHandlers`, module `HandlerChain`).**
- A GEGL buffer reaches its tiles through a chain of handlers, such as caches, wrapped around a source store.
- The chain is a tile store of its own. A `get_tile` or `message` request goes to the head handler. When the list is empty, it goes to the chain's own source.
- `rebind` keeps each handler's `source` property pointing at the next handler, and the tail's at the chain's source. `add` prepends a handler and rebinds.
- On disposal, `nuke_cache` releases every cache handler first. It always takes the first cache that remains and rebinds after each removal. A cache flushing its unwritten tiles therefore always finds a living downstream store. After that, `dispose` releases the remaining handlers head to tail.

The class `HandlerChain.Chain` has these fields:
- `chain`: the list, head first.
- `source`: the `source` property of every handler.
- `origin`: the chain's own source.
- `log`: an append-only record of releases. Each release records the handler and the store it was bound to when released, which is where a cache flushes.

Specification functions describe what disposal must produce (`CacheReleases`, `PlainReleases`, `DisposeLog`). Lemmas prove:
- every handler is released exactly once;
- all caches are released before any other handler;
- every cache flushes into a store that is still alive.

**The c2g region arithmetic (module `C2gRegions`).** The colour-to-grey workshop operation looks at a square neighbourhood of `radius` pixels. Its region callbacks grow rectangles by the radius on every side. The model proves:
- the growth is exactly the set of pixels within `radius` of the rectangle;
- `get_source_rect` and `get_affected_region` are inverse views of each other on non-empty requests;
- `process` reads only pixels inside the rectangle it asked of its input, and exactly that rectangle when the result is the whole request.

Files: `options.dfy` (the `Option` type), `handler_chain.dfy`, `c2g_regions.dfy`.

## Model

| member | source | states |
|---|---|---|
| HandlerChain.FirstIndexFrom | gegl/buffer/gegl-handlers.c:201-210 | the index found is an instance of the type and no earlier one is; None exactly when no handler from `from` on is an instance |
| HandlerChain.Chain.GetFirst | gegl/buffer/gegl-handlers.c:195-211 | None if and only if no handler of the chain is an instance of the type; otherwise the handler returned is an instance and every handler before it is not |
| HandlerChain.RemoveFirstAt | gegl/buffer/gegl-handlers.c:45 | removing a handler whose first occurrence is at position i cuts out exactly position i |
| HandlerChain.RemoveFirst | gegl/buffer/gegl-handlers.c:45 | g_slist_remove leaves a list without the handler unchanged and otherwise shortens the list by one |
| HandlerChain.Chain.constructor | gegl/buffer/gegl-handlers.c:146-150 | a new chain is empty, satisfies the chain invariant and has an empty release log |
| HandlerChain.Chain.Rebind | gegl/buffer/gegl-handlers.c:155-179 | afterwards every handler's source is the next handler and the tail's is the chain's source (the invariant `Valid`); the list, the chain's source and the log are unchanged; handlers outside the chain keep their source |
| HandlerChain.Chain.Add | gegl/buffer/gegl-handlers.c:181-190 | the handler becomes the new head, the chain invariant holds again, the handler is returned, and nothing else changes |
| HandlerChain.Chain.GetTile | gegl/buffer/gegl-handlers.c:88-106 | the request goes, with unchanged coordinates, to the head handler, or to the chain's source when the list is empty |
| HandlerChain.Chain.Message | gegl/buffer/gegl-handlers.c:108-127 | the message, its coordinates and its data go unchanged to the head handler, or to the chain's source when the list is empty |
| HandlerChain.Chain.RequestsWalkTheChain | gegl/buffer/gegl-handlers.c:98-102 | following source links from where a request enters visits the handlers head to tail and then the chain's own source |
| HandlerChain.FollowWalksTheChain | gegl/buffer/gegl-handlers.c:160-178 | under the rebind invariant, n source links from position j lead to position j + n, or to the chain's source past the tail |
| HandlerChain.Chain.NukeCache | gegl/buffer/gegl-handlers.c:33-52 | afterwards the list is the old list without its caches, in order; the invariant holds; the log grows by exactly the cache releases, head to tail, each bound to the cache's original downstream neighbour; every handler keeps a source binding, and every handler no longer in the list keeps the binding it had before |
| HandlerChain.Chain.ReleaseFirstCache | gegl/buffer/gegl-handlers.c:39-50 | one round releases the first cache while it is bound to its downstream neighbour, cuts it out of the list, and keeps the invariant; no binding is added or dropped, and the released cache and every handler outside the list keep theirs |
| HandlerChain.NukeStep | gegl/buffer/gegl-handlers.c:37-51 | one round of the teardown moves the original-chain position past exactly one cache, keeping the list and the log in step with that position |
| HandlerChain.NukeDone | gegl/buffer/gegl-handlers.c:37 | when no cache is left in the list, the teardown has removed and released every cache of the original chain |
| HandlerChain.NonCachesMembers | gegl/buffer/gegl-handlers.c:37-51 | the list after the teardown holds exactly the handlers that are not caches |
| HandlerChain.NonCachesOfDistinct | gegl/buffer/gegl-handlers.c:45 | removing caches from a list without repeated handlers leaves one without repeated handlers |
| HandlerChain.CacheReleasesReleaseCaches | gegl/buffer/gegl-handlers.c:44 | the teardown releases exactly the caches of the chain, in order, and nothing else |
| HandlerChain.CacheReleasesFlushIntoLiveStores | gegl/buffer/gegl-handlers.c:44-46 | every cache is released while the handler it flushes into has not been released |
| HandlerChain.Chain.Dispose | gegl/buffer/gegl-handlers.c:54-79 | afterwards the list is empty; the log grows by the cache releases, then the remaining handlers head to tail, then the parent's dispose; the source bindings are those the cache teardown left: the remaining handlers linked in order, every other handler as before |
| HandlerChain.PlainReleasesReleaseInOrder | gegl/buffer/gegl-handlers.c:66-72 | the plain loop releases exactly the handlers of the list, in order |
| HandlerChain.DisposeReleasesEachHandlerOnce | gegl/buffer/gegl-handlers.c:54-79 | disposal releases every handler of the chain exactly once (as multisets) |
| HandlerChain.DisposeReleasesCachesFirst | gegl/buffer/gegl-handlers.c:64-72 | in the disposal log every cache release comes before every other release |
| HandlerChain.DisposeFlushesIntoLiveStores | gegl/buffer/gegl-handlers.c:64-78 | every cache flushes into a handler not yet released; the parent's dispose comes last and only once |
| HandlerChain.CachesAndNonCachesPartition | gegl/buffer/gegl-handlers.c:37-72 | the caches and the other handlers together are the whole chain (as multisets) |
| C2gRegions.Grow | operations/workshop/c2g.c:274-277 | each edge of the rectangle moves outwards by exactly the radius |
| C2gRegions.GrowIsNeighbourhood | operations/workshop/c2g.c:274-277 | for a non-empty rectangle and a radius of at least zero, a pixel is in the grown rectangle if and only if it lies within radius, in both axes, of a pixel of the rectangle |
| C2gRegions.GetAffectedRegion | operations/workshop/c2g.c:264-279 | each edge of the changed region moves outwards by the radius, with no emptiness test |
| C2gRegions.GetSourceRect | operations/workshop/c2g.c:231-251 | a request with non-zero width and height is grown by the radius on every side; a request with zero width or height comes back unchanged |
| C2gRegions.SourceRectIsInverseOfAffectedRegion | operations/workshop/c2g.c:241-277 | for a non-empty request, a pixel is needed from the input if and only if the region it affects overlaps the request |
| C2gRegions.EmptyRegionsDiffer | operations/workshop/c2g.c:241-277 | for a zero-sized region and a positive radius, the affected region is non-empty while the source rectangle stays the region itself |
| C2gRegions.CalcSourceRegion | operations/workshop/c2g.c:253-262 | the rectangle set on the input pad covers every pixel of a non-empty request |
| C2gRegions.GetDefinedRegion | operations/workshop/c2g.c:205-229 | no input region gives the all-zero rectangle; otherwise the input's defined region comes back unchanged |
| C2gRegions.Process | operations/workshop/c2g.c:71-85 | `need` is the result grown by the radius; the input passes through if and only if the result has zero width or height or the radius is below one; otherwise the kernel fills exactly `need`; the published buffer is cropped to the result |
| C2gRegions.ProcessNeedsWhatWasRequested | operations/workshop/c2g.c:75-104 | when the kernel runs on a result equal to the request, it fills exactly the rectangle asked of the input and the region the result affects |
| C2gRegions.ProcessStaysWithinSourceRegion | operations/workshop/c2g.c:71-78 | for a result inside a non-empty request and a radius of at least zero, every pixel process needs lies in the rectangle set on the input pad for that request |
| HandlerChain.BindingsKept | gegl/buffer/gegl-handlers.c:44-46 | a round of the cache teardown changes no binding outside the kept non-caches: handlers still ahead keep their downstream neighbour and a released cache is not rebound |

## Left out

- Reference counting is not modelled. A release is an event in `log`; the handler's own teardown is not modelled, including a cache's flush of its tiles. What the model keeps is the store the cache is bound to at that moment.
- `g_object_ref`/`g_object_unref` of the stores that `rebind` passes to `g_object_set` are not modelled. Only the resulting `source` property is kept.
- Tile contents, and what a store answers to a forwarded `get_tile` or `message`, are not modelled. The model returns the forwarded call, not its result. Message kinds and message data are opaque numbers.
- The global `tsource` in `gegl_handlers_add` is left out: it is set and cleared, and nothing in this core reads it.
- `finalize` and `gegl_handlers_class_init` are left out, because they only hand control to GObject.
- `dispose`'s test for a null list element is left out: handlers in the model are values and never null.
- HandlerChain.Chain.Add: requires that the handler is not already in the list and is not the chain's own source. The source does not check this. A repeated handler breaks the chain: in the list h, a, h the first h is bound to a, but rebind then overwrites it with the chain's source, so requests skip a; and dispose releases h twice. The chain invariant excludes this.
- HandlerChain.Chain.GetTile: requires a non-empty list or a chain source, where the source aborts with `g_assert (0)`. The abort itself is not modelled. HandlerChain.Chain.Message is the same.
- HandlerChain.Chain.NukeCache: the scan from the head is written as a loop that stops at the first cache, in place of the source's walk with `break`. It visits the same handlers.
- C2gRegions.Grow: does not model 32-bit `gint` overflow of the coordinates. Integers are unbounded, and the same holds for GetAffectedRegion, GetSourceRect, CalcSourceRegion and Process.
- C2gRegions.Process: the radius property is an integer between 2 and 5000. The model accepts any integer, so the `radius < 1` branch is kept even though the property's range never reaches it.
- The c2g pixel kernel (`c2g`, `compute_luts`, `compute_envelopes`) and buffer allocation are left out: this is floating-point image processing outside the region arithmetic.
- gegl/gegl-init.c is not part of this model.
- Handler types are modelled as a set of types below `GeglHandler` that each handler's class is or derives from, and `IsInstanceOf` tests membership in it. The rest of the GType system (interfaces, type registration, casts) is not modelled.
- The parent class's dispose (gegl-handlers.c:78) is recorded as one `ParentDisposed` event. What it does to the object, including its own `source` property, is not modelled, so `origin` is unchanged afterwards.
- `process` reads its result rectangle from `gegl_operation_result_rect` (c2g.c:71), and `get_source_rect` reads the requested region (c2g.c:240). The model takes both as inputs. It does not derive one from the other, so it relates them only where the result lies inside the request (ProcessStaysWithinSourceRegion) or equals it (ProcessNeedsWhatWasRequested).
- Threading is not modelled; the operations are modelled as running one at a time.
