/** What becomes of a PubSub message for a node, and where it arrives after a run of requests. */
module Routing {
  import opened Options
  import opened Registry

  datatype Push = Dropped | V1(uri: string) | V2(uri: string, accountId: string)

  /** The lookups of the message handler and of the handlers behind it, as one decision. */
  function Route(w: World, node: string): Push {
    if !Resolves(w, node) then Dropped
    else
      var entry := w.lists[node][0];
      if entry.deviceId !in w.devices then Dropped
      else
        var device := w.devices[entry.deviceId];
        if device.version == Some("2") then V2(device.uri, entry.accountId) else V1(device.uri)
  }

  /** What the account should receive: a push to the URI its device last announced, in the format of the
      version the device last sent. */
  function Expected(requests: seq<Request>, owner: Owner): Push
    requires LastUri(requests, owner.deviceId).Some?
  {
    var uri := LastUri(requests, owner.deviceId).value;
    if LastVersion(requests, owner.deviceId) == Some("2") then V2(uri, owner.accountId) else V1(uri)
  }

  /** After any run of any devices, a message for the current node of an account is pushed to the account's
      own device: as written when the streak of the account is odd, and else it is dropped; in the variant, when no
      request names an account twice, always. */
  lemma RunDelivers(requests: seq<Request>, readFirst: bool, owner: Owner)
    requires PossibleRun(requests, readFirst) && (readFirst ==> AllOnce(requests))
    requires owner in Run(requests, readFirst).world.nodes
    ensures LastUri(requests, owner.deviceId).Some?
    ensures var w := Run(requests, readFirst).world;
            Route(w, w.nodes[owner])
            == if readFirst || Streak(requests, owner) % 2 == 1 then Expected(requests, owner) else Dropped
  {
    hide Run, PossibleRun, Streak, LastUri, LastVersion, CurrentNodes;
    RunRemembers(requests, readFirst, owner.deviceId);
    RunRoutes(requests, readFirst, owner);
    RunKeepsInv(requests, readFirst);
  }

  /** In the variant, when no request names an account twice, nothing but the current nodes is routed at all: a node
      the last account lists of the devices dropped leads nowhere. */
  lemma OnlyCurrentNodes(requests: seq<Request>, node: string)
    requires PossibleRun(requests, true) && AllOnce(requests)
    ensures Route(Run(requests, true).world, node) != Dropped <==> node in Run(requests, true).live
  {
    hide Run, PossibleRun, AllTidy, AllOnce;
    RunKeepsInv(requests, true);
    OnceIsTidy(requests, true);
    RunStaysTidy(requests, true);
    CleanResolvesCurrent(Run(requests, true).world, node);
    if node in CurrentNodes(Run(requests, true).world) {
      var owner :| owner in Run(requests, true).world.nodes && Run(requests, true).world.nodes[owner] == node;
    }
  }

  // ---------- Every node ----------

  /** The request takes the node from an account whose streak is odd, or gives it, as a new one, to an account that
      has no routable node and is named again later in the list. */
  ghost predicate Abandons(before: seq<Request>, request: Request, node: string) {
    PossibleRun(before, false) && PossibleRun(before + [request], false) &&
    var s, r := Run(before, false).world, Run(before + [request], false).world;
    || (exists owner :: owner in s.nodes && s.nodes[owner] == node && Streak(before, owner) % 2 == 1
                        && node !in CurrentNodes(r))
    || (request.SetAccounts? && LastUri(before, request.deviceId).Some?
        && exists i, j | 0 <= i < j < |request.ids| ::
             && request.ids[i] == request.ids[j] && request.tokens[i].node == node
             && Streak(before, Owner(request.deviceId, request.ids[i])) % 2 == 0)
  }

  lemma AbandonsNow(before: seq<Request>, request: Request, node: string)
    requires PossibleRun(before, false) && PossibleRun(before + [request], false)
    ensures var s, r := Run(before, false).world, Run(before + [request], false).world;
            Abandons(before, request, node) <==>
            || (exists owner :: Routable(s, owner) && s.nodes[owner] == node && node !in CurrentNodes(r))
            || Leaks(s, request, node)
  {
    hide Run, PossibleRun, Streak, LastUri, CurrentNodes, Routable;
    forall owner ensures owner in Run(before, false).world.nodes <==> Streak(before, owner) > 0
                 ensures Routable(Run(before, false).world, owner) <==> Streak(before, owner) % 2 == 1
    {
      RunRoutes(before, false, owner);
    }
    if request.SetAccounts? {
      RunRemembers(before, false, request.deviceId);
    }
    LastStep(before, request);
    RoutableHas(Run(before, false).world);
  }

  lemma RoutableHas(w: World)
    ensures forall owner | Routable(w, owner) :: owner in w.nodes
  {
  }

  /** Some request of the run abandoned the node. */
  ghost predicate Abandoned(requests: seq<Request>, node: string) {
    exists k | 0 <= k < |requests| :: Abandons(requests[..k], requests[k], node)
  }

  lemma AbandonedNext(requests: seq<Request>, node: string)
    requires requests != []
    ensures var before, last := requests[..|requests| - 1], requests[|requests| - 1];
            Abandoned(requests, node) <==> Abandoned(before, node) || Abandons(before, last, node)
  {
    hide Abandons;
    var n := |requests| - 1;
    forall k | 0 <= k < n ensures requests[..n][..k] == requests[..k] && requests[..n][k] == requests[k] {
    }
    if Abandoned(requests[..n], node) {
      var k :| 0 <= k < n && Abandons(requests[..n][..k], requests[..n][k], node);
      assert Abandons(requests[..k], requests[k], node);
    }
    if Abandoned(requests, node) {
      var k :| 0 <= k < |requests| && Abandons(requests[..k], requests[k], node);
      assert k < n ==> Abandons(requests[..n][..k], requests[..n][k], node);
    }
  }

  /** The nodes that resolve and are no account's after a run are those that were abandoned at some time. */
  lemma {:induction false} RunLingers(requests: seq<Request>, node: string)
    requires PossibleRun(requests, false)
    ensures Lingers(Run(requests, false).world, node) <==> Abandoned(requests, node)
  {
    hide Abandons, Step, CurrentNodes, Leaks, Possible, Routable, Inv;
    if requests == [] {
      assert Run(requests, false) == START;
    } else {
      var before, last := requests[..|requests| - 1], requests[|requests| - 1];
      assert before + [last] == requests;
      RunLingers(before, node);
      RunKeepsInv(before, false);
      StepLingers(Run(before, false), last, node);
      AbandonsNow(before, last, node);
      AbandonedNext(requests, node);
    }
  }

  /** As written, for every node after every run: it is routed if and only if it is an account's whose streak is odd,
      or some request abandoned it: dropped it from an account whose streak was odd, or named the account that it was
      new for once more. */
  lemma RoutedExactly(requests: seq<Request>, node: string)
    requires PossibleRun(requests, false)
    ensures var w := Run(requests, false).world;
            Route(w, node) != Dropped <==>
            || (exists owner :: owner in w.nodes && w.nodes[owner] == node && Streak(requests, owner) % 2 == 1)
            || Abandoned(requests, node)
  {
    hide Run, PossibleRun, Streak, Abandoned, CurrentNodes;
    var w := Run(requests, false).world;
    RunKeepsInv(requests, false);
    RunLingers(requests, node);
    ResolvesIsRouted(w, node);
    CurrentIsKnown(w, node);
    if node in CurrentNodes(w) {
      var owner := OwnerOf(w, node);
      RunRoutes(requests, false, owner);
      forall other | other in w.nodes && w.nodes[other] == node ensures other == owner {
      }
    }
  }

  lemma OwnerOf(w: World, node: string) returns (owner: Owner)
    requires node in CurrentNodes(w)
    ensures owner in w.nodes && w.nodes[owner] == node
  {
    owner :| owner in w.nodes && w.nodes[owner] == node;
  }

  lemma ResolvesIsRouted(w: World, node: string)
    requires Agree(w)
    ensures Route(w, node) != Dropped <==> Resolves(w, node)
  {
  }

  /** As written, and for the rest of any run: a message for a node that a request dropped is pushed to the device
      that had it if and only if the account's streak was odd when the node was dropped, and else it is dropped. */
  lemma DroppedNodeStillRouted(before: seq<Request>, drop: Request, after: seq<Request>, owner: Owner)
    requires PossibleRun(before, false) && PossibleRun(before + [drop], false)
    requires PossibleRun(before + [drop] + after, false)
    requires owner in Run(before, false).world.nodes
    requires Run(before, false).world.nodes[owner] !in Run(before + [drop], false).live
    ensures var requests := before + [drop] + after;
            && LastUri(requests, owner.deviceId).Some?
            && Route(Run(requests, false).world, Run(before, false).world.nodes[owner])
               == if Streak(before, owner) % 2 == 1 then Expected(requests, owner) else Dropped
  {
    hide PossibleRun, Streak, LastUri, LastVersion, CurrentNodes, Step, Run;
    var requests, node := before + [drop] + after, Run(before, false).world.nodes[owner];
    RunRoutes(before, false, owner);
    RunKeepsInv(before, false);
    RunKeepsInv(before + [drop], false);
    LastStep(before, drop);
    StepKeepsDropped(Run(before, false), drop, node);
    RunFreezesDropped(before + [drop], after, node);
    RunKeepsInv(requests, false);
    assert Run(requests, false).world.lists[node][0].deviceId == owner.deviceId;
    RunRemembers(requests, false, owner.deviceId);
  }

  // ---------- Two runs as written ----------

  const FIRST := Owner("d", "a")

  const ANNOUNCED := World(map["d" := Device("u", None, [])], map[], map[])

  /** A known device after its account a was stored with a new node. */
  const REGISTERED := World(map["d" := Device("u", Some("1"), ["a"])], map[FIRST := "n"],
                            map["n" := [Entry("a", "d", "s")]])

  const REGISTERING := [SetUri("d", "u"), SetAccounts("d", "1", ["a"], [Token("n", "s")])]

  const DROPPING := SetAccounts("d", "1", [], [])

  const REPEATING := SetAccounts("d", "1", ["a"], [Token("m", "t")])

  lemma Registers()
    ensures Step(START, SetUri("d", "u"), false) == Server(ANNOUNCED, {})
    ensures Possible(Server(ANNOUNCED, {}), REGISTERING[1])
    ensures Step(Server(ANNOUNCED, {}), REGISTERING[1], false) == Server(REGISTERED, {"n"})
  {
    var s, request := Server(ANNOUNCED, {}), REGISTERING[1];
    var accounts := LoadAll(ANNOUNCED, "d", ["a"], [Token("n", "s")], true);
    assert accounts == [PushAccount("a", "n", "s", true)];
    assert Ids(accounts) == ["a"];
    assert accounts[..0] == [];
    assert AddNodes(map[], "d", accounts) == map[FIRST := "n"];
    assert [] + [Entry("a", "d", "s")] == [Entry("a", "d", "s")];
    assert AddEntries(map[], "d", accounts) == map["n" := [Entry("a", "d", "s")]];
    assert Owners("d", []) == {};
    assert Forget(ANNOUNCED, "d", false) == World(map[], map[], map[]);
    assert AccountNodes(accounts) == {"n"};
    assert DeviceNodes(ANNOUNCED, "d") == {};
  }

  const DROPPED := World(map["d" := Device("u", Some("1"), [])], map[], REGISTERED.lists)

  const REPEATED := REGISTERED.(lists := map["n" := [Entry("a", "d", "s"), Entry("a", "d", "s")]])

  lemma Drops()
    ensures Step(Server(REGISTERED, {"n"}), DROPPING, false) == Server(DROPPED, {})
  {
    var accounts := LoadAll(REGISTERED, "d", [], [], true);
    assert accounts == [] && Ids(accounts) == [];
    assert Owners("d", ["a"]) == {FIRST};
    assert Forget(REGISTERED, "d", false) == World(map[], map[], REGISTERED.lists);
    assert AccountNodes(accounts) == {};
    assert DeviceNodes(REGISTERED, "d") == {"n"};
  }

  lemma Repeats()
    ensures Possible(Server(REGISTERED, {"n"}), REPEATING)
    ensures Step(Server(REGISTERED, {"n"}), REPEATING, false) == Server(REPEATED, {"n"})
  {
    var accounts := LoadAll(REGISTERED, "d", ["a"], [Token("m", "t")], true);
    assert "m"[0] != "n"[0];
    assert accounts == [PushAccount("a", "n", "s", true)] by {
      assert Load(REGISTERED, "d", "a", Token("m", "t"), true) == PushAccount("a", "n", "s", true);
    }
    assert Ids(accounts) == ["a"];
    assert accounts[..0] == [];
    assert Owners("d", ["a"]) == {FIRST};
    assert Forget(REGISTERED, "d", false) == World(map[], map[], REGISTERED.lists);
    assert AddNodes(map[], "d", accounts) == map[FIRST := "n"];
    assert [Entry("a", "d", "s")] + [Entry("a", "d", "s")] == [Entry("a", "d", "s"), Entry("a", "d", "s")];
    assert AddEntries(REGISTERED.lists, "d", accounts) == REPEATED.lists;
    assert AccountNodes(accounts) == {"n"} && AccountNodes(accounts[..0]) == {};
    assert DeviceNodes(REGISTERED, "d") == {"n"};
    assert Added(accounts, {"n"}) == {};
  }

  /** A device announces its URI, registers one account, and then sends an empty list: the account's node is gone
      from the PubSub service and from the device, and a message for it would still be pushed to the device. */
  lemma DroppedRun()
    ensures var requests := REGISTERING + [DROPPING];
            && PossibleRun(requests, false)
            && "n" !in Run(requests, false).live && "n" !in CurrentNodes(Run(requests, false).world)
            && Route(Run(requests, false).world, "n") == V1("u")
  {
    Registers();
    Drops();
    hide Step;
    RunAlong([START, Server(ANNOUNCED, {}), Server(REGISTERED, {"n"}), Server(DROPPED, {})],
             REGISTERING + [DROPPING], false);
  }

  /** The same device sends its list twice instead: the account keeps its node, and a message for it is dropped. */
  lemma RepeatedRun()
    ensures var requests := REGISTERING + [REPEATING];
            && PossibleRun(requests, false)
            && FIRST in Run(requests, false).world.nodes && "n" in Run(requests, false).live
            && !Routable(Run(requests, false).world, FIRST)
            && Route(Run(requests, false).world, "n") == Dropped
  {
    Registers();
    Repeats();
    hide Step;
    RunAlong([START, Server(ANNOUNCED, {}), Server(REGISTERED, {"n"}), Server(REPEATED, {"n"})],
             REGISTERING + [REPEATING], false);
  }
}
