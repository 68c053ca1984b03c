# Nearby-smelt furnace registry, its replication protocol, and world-generator options

This project models two pieces of a Minecraft mission framework and proves properties about them.

The first piece is the nearby-smelt command handler (`NearbySmeltCommandsImplementation.java`). A process-wide list holds the block positions where furnaces stand. World events for placing and destroying furnaces update that list. The server sends every such event to each connected player. A client applies an event it receives by removing the position first and then appending it again when the event is an add. On the client, the command `smeltNearby <item>` sends a smelt request to the server. The server acts on that request only when the player has a furnace nearby and a smelting recipe exists.

The second piece is the default world generator (`world.py`). It stores its options string with every double quote turned into a single quote. Each of the four generator kinds reports a fixed name.

Modules:

- `Furnaces` (furnaces.dfy) defines the position type, the furnace message, and the registry class `FurnaceRegistry`. Its `furnaces` field is the shared list. The module also holds the specification functions (`RemoveAll`, `ApplyEvent`, `Replay`, `LastEventFor`) and the lemmas about them.
- `Wire` (wire.dfy) models the two message encodings. A buffer is a sequence of typed tokens (`IntTok`, `BoolTok`, `StrTok`) with a read position. The `ByteBuf` class and the step-by-step `toBytes`/`fromBytes` methods are proved against the pure encoders and decoders.
- `JavaStrings` (java_strings.dfy) defines `equalsIgnoreCase` and proves it equal to comparing the lower-cased strings.
- `SmeltCommands` (smelt_commands.dfy) holds the world-event handlers, the broadcast loop, the furnace-message handler, the client command filter `OnExecute`, and the server smelt guard.
- `WorldGenerators` (world_generators.dfy) holds the four generators, their constructors, and the quote replacement.
- `Wrappers` (wrappers.dfy) defines `Option`.

Outside inputs become parameters:

- Whether a block is a furnace, whether the event was cancelled, and whether a server-side player caused it are fields of `BlockEvent`.
- The list of connected players is an argument.
- The visibility test is the function argument `hasNearbyFurnace`.
- The crafting helper's recipe lookup is the function argument `recipeFor`.
- A network send is an element of the returned list of deliveries, or an append to the `toServer` queue.

Two details of the source deserve a note:

- The furnace-message handler's comment (line 124) says that removing first prevents duplicates. `onBlockPlace` (line 154) appends without removing. So a local placement at a registered position creates a duplicate, as `PlaceCanDuplicate` shows. A later replicated add for the same position removes that duplicate again (`ApplyEventAfterPlace`).
- A read past the end of the buffer throws in the source (lines 108-109). The model's decoder returns `None`.

## Model

| member | source | states |
|---|---|---|
| Furnaces.RemoveAll | minerl/Malmo/Minecraft/src/main/java/com/microsoft/Malmo/MissionHandlers/NearbySmeltCommandsImplementation.java:133-137 | After removal, `pos` is gone. Every other position is kept iff it was present. The list never grows. |
| Furnaces.RemoveAllCount | minerl/Malmo/Minecraft/src/main/java/com/microsoft/Malmo/MissionHandlers/NearbySmeltCommandsImplementation.java:134-136 | Removal keeps the number of occurrences of every other position and leaves none of `pos`. |
| Furnaces.RemoveAllIsSubsequence | minerl/Malmo/Minecraft/src/main/java/com/microsoft/Malmo/MissionHandlers/NearbySmeltCommandsImplementation.java:134-136 | The surviving entries stay in their original relative order. |
| Furnaces.RemoveAllAbsent | minerl/Malmo/Minecraft/src/main/java/com/microsoft/Malmo/MissionHandlers/NearbySmeltCommandsImplementation.java:133-137 | Removing a position that is absent leaves the list unchanged. |
| Furnaces.RemoveAllKeepsNoDuplicates | minerl/Malmo/Minecraft/src/main/java/com/microsoft/Malmo/MissionHandlers/NearbySmeltCommandsImplementation.java:133-137 | Removal never creates a duplicate. |
| Furnaces.ApplyEvent | minerl/Malmo/Minecraft/src/main/java/com/microsoft/Malmo/MissionHandlers/NearbySmeltCommandsImplementation.java:125-128 | After a replicated event its position is present iff the event adds it, and then it is the last entry. Every other position is present iff it was before. |
| Furnaces.FurnaceRegistry.MaybeRemoveAtPos | minerl/Malmo/Minecraft/src/main/java/com/microsoft/Malmo/MissionHandlers/NearbySmeltCommandsImplementation.java:133-137 | The backward in-place deletion loop leaves exactly `RemoveAll(old list, pos)`. |
| Furnaces.FurnaceRegistry.Add | minerl/Malmo/Minecraft/src/main/java/com/microsoft/Malmo/MissionHandlers/NearbySmeltCommandsImplementation.java:127 | Appending puts the position at the end of the list. |
| Furnaces.FurnaceRegistry.Reset | minerl/Malmo/Minecraft/src/main/java/com/microsoft/Malmo/MissionHandlers/NearbySmeltCommandsImplementation.java:247 | Resetting replaces the list with an empty one. |
| Furnaces.FurnaceRegistry.constructor | minerl/Malmo/Minecraft/src/main/java/com/microsoft/Malmo/MissionHandlers/NearbySmeltCommandsImplementation.java:247 | A new registry is empty. |
| Furnaces.ApplyEventCounts | minerl/Malmo/Minecraft/src/main/java/com/microsoft/Malmo/MissionHandlers/NearbySmeltCommandsImplementation.java:124-128 | After an add event, `pos` occurs exactly once and is the last entry. After a remove event it occurs zero times. All other counts are unchanged. |
| Furnaces.ApplyEventIdempotent | minerl/Malmo/Minecraft/src/main/java/com/microsoft/Malmo/MissionHandlers/NearbySmeltCommandsImplementation.java:125-128 | Applying the same event twice gives the same list as applying it once. |
| Furnaces.ApplyEventKeepsNoDuplicates | minerl/Malmo/Minecraft/src/main/java/com/microsoft/Malmo/MissionHandlers/NearbySmeltCommandsImplementation.java:124-128 | If the list has no duplicates before an event, it has none after. |
| Furnaces.ReplayMembership | minerl/Malmo/Minecraft/src/main/java/com/microsoft/Malmo/MissionHandlers/NearbySmeltCommandsImplementation.java:121-131 | After a sequence of events, a position is present iff the last event naming it was an add. If no event names it, it is present iff it was present before. |
| Furnaces.ReplayKeepsNoDuplicates | minerl/Malmo/Minecraft/src/main/java/com/microsoft/Malmo/MissionHandlers/NearbySmeltCommandsImplementation.java:121-131 | Replaying events keeps a duplicate-free list duplicate-free. |
| Furnaces.ReplayConverges | minerl/Malmo/Minecraft/src/main/java/com/microsoft/Malmo/MissionHandlers/NearbySmeltCommandsImplementation.java:121-131 | Two mirrors given the same events agree on every position those events name, whatever they held before. |
| Furnaces.PlaceCanDuplicate | minerl/Malmo/Minecraft/src/main/java/com/microsoft/Malmo/MissionHandlers/NearbySmeltCommandsImplementation.java:149-156 | A local placement at an already registered position increases its count by one, so the list then has a duplicate. |
| Furnaces.ApplyEventAfterPlace | minerl/Malmo/Minecraft/src/main/java/com/microsoft/Malmo/MissionHandlers/NearbySmeltCommandsImplementation.java:125-128 | A replicated add that follows a local append of the same position gives the same list as the add alone. |
| Wire.DecodeFurnace | minerl/Malmo/Minecraft/src/main/java/com/microsoft/Malmo/MissionHandlers/NearbySmeltCommandsImplementation.java:107-110 | The decoder reads x, y, z and then the flag. Whatever it accepts is exactly the encoding of the message it returns. |
| Wire.FurnaceRoundTrip | minerl/Malmo/Minecraft/src/main/java/com/microsoft/Malmo/MissionHandlers/NearbySmeltCommandsImplementation.java:107-117 | Decoding an encoded furnace message returns the same x, y, z and flag, whatever follows, and consumes exactly the four tokens. |
| Wire.EncodeFurnace | minerl/Malmo/Minecraft/src/main/java/com/microsoft/Malmo/MissionHandlers/NearbySmeltCommandsImplementation.java:113-118 | The encoding is four tokens: three ints that rebuild the position in the order x, y, z, then the `isAdd` flag. |
| Wire.DecodeFurnaceComplete | minerl/Malmo/Minecraft/src/main/java/com/microsoft/Malmo/MissionHandlers/NearbySmeltCommandsImplementation.java:107-110 | Decoding fails iff the input does not start with the encoding of some message. |
| Wire.TruncatedFurnaceFails | minerl/Malmo/Minecraft/src/main/java/com/microsoft/Malmo/MissionHandlers/NearbySmeltCommandsImplementation.java:107-110 | Every strict prefix of an encoding is rejected. |
| Wire.DecodeSmelt | minerl/Malmo/Minecraft/src/main/java/com/microsoft/Malmo/MissionHandlers/NearbySmeltCommandsImplementation.java:85-87 | The smelt decoder reads one string. Whatever it accepts is the encoding of what it returns. |
| Wire.SmeltRoundTrip | minerl/Malmo/Minecraft/src/main/java/com/microsoft/Malmo/MissionHandlers/NearbySmeltCommandsImplementation.java:84-92 | Decoding an encoded smelt request returns the same parameter string. |
| Wire.EncodeSmelt | minerl/Malmo/Minecraft/src/main/java/com/microsoft/Malmo/MissionHandlers/NearbySmeltCommandsImplementation.java:90-92 | The encoding is a single string token holding the parameter unchanged. |
| Wire.FurnaceToBytes | minerl/Malmo/Minecraft/src/main/java/com/microsoft/Malmo/MissionHandlers/NearbySmeltCommandsImplementation.java:113-118 | Writes x, y, z and `isAdd`, in that order, after what the buffer already holds. |
| Wire.FurnaceFromBytes | minerl/Malmo/Minecraft/src/main/java/com/microsoft/Malmo/MissionHandlers/NearbySmeltCommandsImplementation.java:107-110 | The step-by-step reads return what `DecodeFurnace` returns. On success they consume exactly its tokens. Any failed read fails the message. |
| Wire.SmeltToBytes | minerl/Malmo/Minecraft/src/main/java/com/microsoft/Malmo/MissionHandlers/NearbySmeltCommandsImplementation.java:90-92 | Writes the parameter string. |
| Wire.SmeltFromBytes | minerl/Malmo/Minecraft/src/main/java/com/microsoft/Malmo/MissionHandlers/NearbySmeltCommandsImplementation.java:85-87 | Reads one string, as `DecodeSmelt` does. |
| JavaStrings.EqualsIgnoreCaseIffLower | minerl/Malmo/Minecraft/src/main/java/com/microsoft/Malmo/MissionHandlers/NearbySmeltCommandsImplementation.java:238 | Java's character-wise case-insensitive comparison holds iff the lower-cased strings are equal. |
| SmeltCommands.Broadcast | minerl/Malmo/Minecraft/src/main/java/com/microsoft/Malmo/MissionHandlers/NearbySmeltCommandsImplementation.java:139-146 | Every delivery carries the event to a server-side player in the list. A server-side player receives it as many times as it occurs in the list, and any other player never receives it. |
| SmeltCommands.BroadcastInOrder | minerl/Malmo/Minecraft/src/main/java/com/microsoft/Malmo/MissionHandlers/NearbySmeltCommandsImplementation.java:141-145 | The recipients of the deliveries form a subsequence of the player list, so the sends follow the list's order. |
| SmeltCommands.SendFurnaceMessage | minerl/Malmo/Minecraft/src/main/java/com/microsoft/Malmo/MissionHandlers/NearbySmeltCommandsImplementation.java:139-146 | The loop over the players sends exactly `Broadcast(players, (pos, isAdd))`. |
| SmeltCommands.FurnaceMessageHandler | minerl/Malmo/Minecraft/src/main/java/com/microsoft/Malmo/MissionHandlers/NearbySmeltCommandsImplementation.java:121-131 | A received event turns the registry into `ApplyEvent(old list, event)`. |
| SmeltCommands.OnBlockPlace | minerl/Malmo/Minecraft/src/main/java/com/microsoft/Malmo/MissionHandlers/NearbySmeltCommandsImplementation.java:148-162 | For an uncancelled furnace placement, the position is appended with no removal first. An add event is broadcast only when a server-side player placed the furnace. The list change is `ServerEffect` of that add event. Any other event changes nothing. |
| SmeltCommands.OnBlockDestroy | minerl/Malmo/Minecraft/src/main/java/com/microsoft/Malmo/MissionHandlers/NearbySmeltCommandsImplementation.java:164-178 | For an uncancelled furnace destruction, every entry at the position is removed. A remove event is broadcast only when a server-side player destroyed the furnace. The list change is `ServerEffect` of that remove event. Any other event changes nothing. |
| SmeltCommands.ParseParameters | minerl/Malmo/Minecraft/src/main/java/com/microsoft/Malmo/MissionHandlers/NearbySmeltCommandsImplementation.java:246-255 | The registry is emptied even when the parameters are of the wrong kind. The result reports whether they were of the right kind. |
| SmeltCommands.OnExecute | minerl/Malmo/Minecraft/src/main/java/com/microsoft/Malmo/MissionHandlers/NearbySmeltCommandsImplementation.java:236-243 | Returns true, and queues exactly one smelt request carrying the parameter unchanged, iff the lower-cased verb is `smeltnearby` and the lower-cased parameter is not `none`. Otherwise it returns false and queues nothing. |
| SmeltCommands.SmeltNearbyMessageHandler | minerl/Malmo/Minecraft/src/main/java/com/microsoft/Malmo/MissionHandlers/NearbySmeltCommandsImplementation.java:221-233 | Makes no crafting call unless a furnace is nearby. Then it looks up the recipe for the requested output. It attempts smelting, once and as the last call, iff the lookup found an input, and it uses that input. It makes zero calls, one call or two calls, according to those two conditions. |
| SmeltCommands.MirrorAgreesAfterEvent | minerl/Malmo/Minecraft/src/main/java/com/microsoft/Malmo/MissionHandlers/NearbySmeltCommandsImplementation.java:121-178 | Suppose the server's list and a client's mirror hold the same positions. After one furnace event, the server's own effect (append for a place, remove for a destroy) and the client's remove-then-maybe-append of the broadcast event leave them holding the same positions again. |
| SmeltCommands.MirrorAgreesWithServer | minerl/Malmo/Minecraft/src/main/java/com/microsoft/Malmo/MissionHandlers/NearbySmeltCommandsImplementation.java:121-178 | A mirror that starts with the server's positions and receives every broadcast event in order holds the server's positions after the whole sequence. |
| WorldGenerators.ReplaceQuotes | minerl/herobraine/hero/handlers/server/world.py:28 | Keeps the length. Each `"` becomes `'` and every other character stays at its position. The result has no `"`. |
| WorldGenerators.NewDefaultWorldGenerator | minerl/herobraine/hero/handlers/server/world.py:20-29 | `force_reset` is stored exactly as passed. The stored options are the sanitised input and contain no `"`. The defaults are true and `{}`. |
| WorldGenerators.NewFileWorldGenerator | minerl/herobraine/hero/handlers/server/world.py:44-47 | Stores the file name and the destroy flag as given. The flag defaults to true. |
| WorldGenerators.NewFlatWorldGenerator | minerl/herobraine/hero/handlers/server/world.py:63-64 | Stores the reset flag as given. It defaults to true. |
| WorldGenerators.NewBiomeGenerator | minerl/herobraine/hero/handlers/server/world.py:79-81 | Stores the biome id and the reset flag as given. The flag defaults to true. |
| WorldGenerators.WorldGenerator.ToString | minerl/herobraine/hero/handlers/server/world.py:8-69 | The names are `default_world_generator`, `file_world_generator`, `flat_world_generator` and `biome_generator`, one per kind. |
| WorldGenerators.ReplaceQuotesNoQuote | minerl/herobraine/hero/handlers/server/world.py:28 | A string with no `"` is left unchanged. |
| WorldGenerators.ReplaceQuotesIdempotent | minerl/herobraine/hero/handlers/server/world.py:28 | Sanitising twice equals sanitising once. |
| WorldGenerators.ToStringIdentifiesKind | minerl/herobraine/hero/handlers/server/world.py:8-69 | Two generators report the same name (`default_world_generator`, `file_world_generator`, `flat_world_generator`, `biome_generator`) iff they are of the same kind, whatever their settings. |

## Left out

- `hasNearbyFurnace` (lines 180-219) is not modelled. It computes in double precision (`acos`, cross products, the 1.6 head offset) and reads the display size and field of view. It is the function argument `hasNearbyFurnace`.
- The `nearby_furnace` JSON observation (lines 288-292) is not modelled, because it only reports that same test.
- The `RunLater` deferral in `onBlockPlace`/`onBlockDestroy` is not modelled. The model applies the registry effect immediately, so it does not capture that the local effect lands one tick after the broadcast.
- The thread marshalling in `SafeIMessageHandler` is not modelled, because it is scheduling.
- The network transport is not modelled. A send is a returned `Delivery` or an element appended to the `toServer` queue.
- Forge event-bus registration (`install`/`deinstall`), `CraftingHelper.reset`, and the `instanceof BlockFurnace` / `instanceof EntityPlayerMP` checks are not modelled. The checks arrive as boolean fields.
- `CraftingHelper.getSmeltingRecipeForRequestedOutput` and `attemptSmelting` are not modelled, because they are foreign calls. The first is the `recipeFor` argument. The second appears only as the recorded call `AttemptSmelting`.
- `setUpAllowAndDenyLists`, the unused `nonono` set, `isOverriding`/`setOverriding`, and the empty `prepare`/`cleanup` are not modelled, because they are outside the registry and command logic.
- The byte layout of `ByteBuf`/`ByteBufUtils` (the width of an int, the boolean byte, the UTF-8 length prefix and its size limit) is not modelled, because those libraries are not part of this model. Each write or read is one typed token. As a result, a read of the wrong kind fails in the model, while at byte level it would misread silently.
- Wire.FurnaceFromBytes: after a failed read, the reader position is only bounded, not fixed. The source abandons the message by throwing at that point.
- Wire.SmeltFromBytes: after a failed read, the reader position is only bounded, not fixed, for the same reason.
- Java strings are UTF-16, so they can hold lone surrogates that UTF-8 encoding replaces. Dafny characters are Unicode scalar values, so `SmeltRoundTrip` does not cover that loss.
- JavaStrings.EqualsIgnoreCaseIffLower: only ASCII letters are case-mapped. Java maps every Unicode letter. For example, `ſ` (U+017F) upper-cases to `S`, so the source accepts `ſmeltNearby` and `OnExecute` does not.
- SmeltCommands.OnExecute: it inherits that ASCII-only case mapping. A verb or parameter that matches only through a non-ASCII case mapping is rejected here, though the source accepts it.
- Furnaces.FurnaceRegistry.constructor: a new registry is empty. In the source, the static list (line 72) is `null` until `parseParameters` runs (line 247), so an event handled before then throws `NullPointerException`. The model has no such state.
- A `null` verb or parameter in `onExecute` is not modelled, because a Dafny string cannot be null.
- `xml_template` in world.py is not modelled, because it renders through jinja2.
- `force_reset` and the other Python flags are untyped in the source. They are modelled as `bool`, and `biome_id` as `int`.
