/**
 * The nearby-smelt command handler: the world-event handlers that keep the furnace registry,
 * the broadcast of furnace events to every connected player, the handler that applies a
 * received furnace event, the client-side command filter and the server-side smelt guard.
 */
module SmeltCommands {
  import opened Wrappers
  import opened Furnaces
  import opened Wire
  import opened JavaStrings

  /** A connected player; `isServerPlayer` says it is a server-side (`EntityPlayerMP`) player. */
  datatype Player = Player(id: nat, isServerPlayer: bool)

  /** One furnace message handed to the network for one player. */
  datatype Delivery = Delivery(to: Player, msg: FurnaceMessage)

  /**
   * A block placement or destruction reported by the world: where, whether the block is a
   * furnace, whether the event was cancelled, and whether a server-side player caused it.
   */
  datatype BlockEvent = BlockEvent(pos: Pos, isFurnace: bool, canceled: bool, byServerPlayer: bool)

  /** A call of the handler into the crafting helper. */
  datatype CraftingCall<Stack> =
    | GetSmeltingRecipe(output: string, player: Player)
    | AttemptSmelting(smelter: Player, input: Stack)

  /** What the command filter returns, with the messages queued for the server. */
  datatype ExecuteResult = ExecuteResult(handled: bool, toServer: seq<SmeltNearbyMessage>)

  /**
   * The deliveries of `m`, one for each server-side player of `players`, in list order.
   * Every delivery carries `m` to such a player, and each player receives it as many times
   * as it occurs in `players` when it is server-side, and never otherwise.
   */
  function Broadcast(players: seq<Player>, m: FurnaceMessage): (r: seq<Delivery>)
    ensures forall k :: 0 <= k < |r| ==> r[k].msg == m && r[k].to.isServerPlayer && r[k].to in players
    ensures forall p :: multiset(r)[Delivery(p, m)] == if p.isServerPlayer then multiset(players)[p] else 0
    ensures |r| <= |players|
  {
    if players == [] then []
    else
      var init := players[..|players| - 1];
      var last := players[|players| - 1];
      assert players == init + [last];
      var tail := if last.isServerPlayer then [Delivery(last, m)] else [];
      assert multiset(players) == multiset(init) + multiset([last]);
      assert multiset(Broadcast(init, m) + tail) == multiset(Broadcast(init, m)) + multiset(tail);
      Broadcast(init, m) + tail
  }

  /** The players a list of deliveries goes to, in order. */
  function Recipients(ds: seq<Delivery>): (r: seq<Player>)
    ensures |r| == |ds| && forall k :: 0 <= k < |ds| ==> r[k] == ds[k].to
  {
    seq(|ds|, k requires 0 <= k < |ds| => ds[k].to)
  }

  /** The recipients of a broadcast appear in the order of the player list. */
  lemma {:induction false} BroadcastInOrder(players: seq<Player>, m: FurnaceMessage)
    ensures IsSubsequence(Recipients(Broadcast(players, m)), players)
  {
    if players != [] {
      var init := players[..|players| - 1];
      var last := players[|players| - 1];
      assert players == init + [last];
      BroadcastInOrder(init, m);
      var before := Broadcast(init, m);
      if last.isServerPlayer {
        assert Recipients(before + [Delivery(last, m)]) == Recipients(before) + [last];
        SubsequenceSnoc(Recipients(before), init, last);
      } else {
        assert Broadcast(players, m) == before;
        SubsequenceAppendRight(Recipients(before), init, last);
      }
    }
  }

  /** Send the furnace event to every server-side player (the network's send is an append). */
  method SendFurnaceMessage(players: seq<Player>, pos: Pos, isAdd: bool) returns (sent: seq<Delivery>)
    ensures sent == Broadcast(players, FurnaceMessage(pos, isAdd))
  {
    var m := FurnaceMessage(pos, isAdd);
    sent := [];
    for i := 0 to |players|
      invariant sent == Broadcast(players[..i], m)
    {
      assert players[..i + 1][..i] == players[..i];
      if players[i].isServerPlayer {
        sent := sent + [Delivery(players[i], m)];
      }
    }
    assert players[..|players|] == players;
  }

  /** A received furnace event: remove every equal entry, then append when adding. */
  method FurnaceMessageHandler(registry: FurnaceRegistry, m: FurnaceMessage)
    modifies registry
    ensures registry.furnaces == ApplyEvent(old(registry.furnaces), m)
  {
    registry.MaybeRemoveAtPos(m.pos);
    if m.isAdd {
      registry.Add(m.pos);
    }
  }

  /** The event handlers react only to furnace blocks whose event was not cancelled. */
  predicate IsFurnaceEvent(e: BlockEvent)
  {
    !e.canceled && e.isFurnace
  }

  /**
   * A furnace was placed: append its position (without removing first) and, when a
   * server-side player placed it, broadcast an add event.
   */
  method OnBlockPlace(registry: FurnaceRegistry, e: BlockEvent, players: seq<Player>) returns (sent: seq<Delivery>)
    modifies registry
    ensures registry.furnaces == if IsFurnaceEvent(e) then old(registry.furnaces) + [e.pos] else old(registry.furnaces)
    ensures sent == if IsFurnaceEvent(e) && e.byServerPlayer then Broadcast(players, FurnaceMessage(e.pos, true)) else []
    ensures IsFurnaceEvent(e) ==> registry.furnaces == ServerEffect(old(registry.furnaces), FurnaceMessage(e.pos, true))
  {
    sent := [];
    if IsFurnaceEvent(e) {
      registry.Add(e.pos);
      if e.byServerPlayer {
        sent := SendFurnaceMessage(players, e.pos, true);
      }
    }
  }

  /**
   * A furnace was destroyed: remove every entry at its position and, when a server-side
   * player destroyed it, broadcast a remove event.
   */
  method OnBlockDestroy(registry: FurnaceRegistry, e: BlockEvent, players: seq<Player>) returns (sent: seq<Delivery>)
    modifies registry
    ensures registry.furnaces == if IsFurnaceEvent(e) then RemoveAll(old(registry.furnaces), e.pos) else old(registry.furnaces)
    ensures sent == if IsFurnaceEvent(e) && e.byServerPlayer then Broadcast(players, FurnaceMessage(e.pos, false)) else []
    ensures IsFurnaceEvent(e) ==> registry.furnaces == ServerEffect(old(registry.furnaces), FurnaceMessage(e.pos, false))
  {
    sent := [];
    if IsFurnaceEvent(e) {
      registry.MaybeRemoveAtPos(e.pos);
      if e.byServerPlayer {
        sent := SendFurnaceMessage(players, e.pos, false);
      }
    }
  }

  /**
   * Reading the mission parameters empties the registry first, whether or not the
   * parameters are of the nearby-smelt kind; the result says whether they were.
   */
  method ParseParameters(registry: FurnaceRegistry, isNearbySmeltCommands: bool) returns (ok: bool)
    modifies registry
    ensures registry.furnaces == [] && ok == isNearbySmeltCommands
  {
    registry.Reset();
    ok := isNearbySmeltCommands;
  }

  /**
   * The client-side command filter. It handles the command, queueing one smelt request
   * that carries the parameter unchanged, exactly when the verb is `smeltNearby` and the
   * parameter is not `none`, both ignoring case; otherwise it queues nothing.
   */
  function OnExecute(verb: string, parameter: string, toServer: seq<SmeltNearbyMessage>): (r: ExecuteResult)
    ensures r.handled <==> LowerAll(verb) == "smeltnearby" && LowerAll(parameter) != "none"
    ensures r.toServer == if r.handled then toServer + [SmeltNearbyMessage(parameter)] else toServer
  {
    EqualsIgnoreCaseIffLower(verb, "smeltNearby");
    EqualsIgnoreCaseIffLower(parameter, "none");
    assert LowerAll("smeltNearby") == "smeltnearby";
    assert LowerAll("none") == "none";
    var send := EqualsIgnoreCase(verb, "smeltNearby") && !EqualsIgnoreCase(parameter, "none");
    ExecuteResult(send, if send then toServer + [SmeltNearbyMessage(parameter)] else toServer)
  }

  /**
   * The server-side smelt request handler, as the calls it makes into the crafting helper.
   * It looks up a recipe only when the player has a furnace nearby, and attempts smelting,
   * once and last, only when that lookup finds an input; otherwise it does nothing.
   */
  function SmeltNearbyMessageHandler<Stack(==)>(
    m: SmeltNearbyMessage, player: Player, furnaces: seq<Pos>,
    hasNearbyFurnace: (Player, seq<Pos>) -> bool,
    recipeFor: (string, Player) -> Option<Stack>): (calls: seq<CraftingCall<Stack>>)
    ensures calls == [] <==> !hasNearbyFurnace(player, furnaces)
    ensures calls != [] ==> calls[0] == GetSmeltingRecipe(m.parameters, player)
    ensures (exists k :: 0 <= k < |calls| && calls[k].AttemptSmelting?)
            <==> hasNearbyFurnace(player, furnaces) && recipeFor(m.parameters, player).Some?
    ensures forall k :: 0 <= k < |calls| && calls[k].AttemptSmelting? ==>
              k == |calls| - 1 && calls[k] == AttemptSmelting(player, recipeFor(m.parameters, player).value)
    ensures |calls| == if hasNearbyFurnace(player, furnaces)
                       then (if recipeFor(m.parameters, player).Some? then 2 else 1) else 0
  {
    if hasNearbyFurnace(player, furnaces) then
      var lookup := [GetSmeltingRecipe(m.parameters, player)];
      match recipeFor(m.parameters, player)
      case None => lookup
      case Some(input) =>
        var calls := lookup + [AttemptSmelting(player, input)];
        assert calls[1].AttemptSmelting?;
        calls
    else []
  }

  /** What the server's own handlers do to its list for the event they broadcast. */
  function ServerEffect(s: seq<Pos>, m: FurnaceMessage): seq<Pos>
  {
    if m.isAdd then s + [m.pos] else RemoveAll(s, m.pos)
  }

  /** The server's list after handling the furnace events `evs` locally, in order. */
  function ServerReplay(s: seq<Pos>, evs: seq<FurnaceMessage>): seq<Pos>
  {
    if evs == [] then s else ServerEffect(ServerReplay(s, evs[..|evs| - 1]), evs[|evs| - 1])
  }

  ghost predicate SameMembers(a: seq<Pos>, b: seq<Pos>)
  {
    forall q :: q in a <==> q in b
  }

  /**
   * A placement appends on the server while the broadcast add removes then appends on the
   * client; a destruction removes on both. Either way the two lists keep the same members.
   */
  lemma MirrorAgreesAfterEvent(server: seq<Pos>, mirror: seq<Pos>, m: FurnaceMessage)
    requires SameMembers(server, mirror)
    ensures SameMembers(ServerEffect(server, m), ApplyEvent(mirror, m))
  {
    forall q ensures q in ServerEffect(server, m) <==> q in ApplyEvent(mirror, m) {
      if m.isAdd {
        assert q in server + [m.pos] <==> q in server || q == m.pos;
      }
    }
  }

  /**
   * A client mirror that starts with the server's members and receives every furnace event
   * the server broadcasts, in order, keeps the server's members after all of them.
   */
  lemma {:induction false} MirrorAgreesWithServer(server: seq<Pos>, mirror: seq<Pos>, evs: seq<FurnaceMessage>)
    requires SameMembers(server, mirror)
    ensures SameMembers(ServerReplay(server, evs), Replay(mirror, evs))
  {
    if evs != [] {
      var init := evs[..|evs| - 1];
      MirrorAgreesWithServer(server, mirror, init);
      MirrorAgreesAfterEvent(ServerReplay(server, init), Replay(mirror, init), evs[|evs| - 1]);
    }
  }

}
