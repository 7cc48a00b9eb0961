/** The request handlers: reconciling PubSub nodes with the accounts of a device, and routing messages. */
module PushServer {
  import opened Options
  import opened Registry
  import opened Redis
  import opened RedisStore
  import opened Routing

  /** The XMPP client as far as nodes go: the PubSub nodes of its account, changed while connected. There is a
      connection object from the set-up of the client to its clean-up. */
  class XmppClient {
    const jid: string
    var conn: bool
    var connected: bool
    var live: set<string>

    constructor (jid: string)
      ensures this.jid == jid && live == {} && !conn && !connected
    {
      this.jid := jid;
      conn, connected, live := false, false, {};
    }

    method SetupPushNode(node: string) returns (success: bool)
      requires conn
      modifies this`live
      ensures success == connected
      ensures live == LiveWith(old(live), {node}, connected)
    {
      if !connected {
        return false;
      }
      live := live + {node};
      return true;
    }

    method DeletePushNode(node: string)
      requires conn
      modifies this`live
      ensures live == if connected then old(live) - {node} else old(live)
    {
      if !connected {
        return;
      }
      live := live - {node};
    }
  }

  datatype Response = Success | Error(message: string) | Accounts(accounts: seq<PushAccount>)

  /** A message stanza: its sender, and the node of its items element when it has one, with whether a
      notification is in it. */
  datatype Stanza = Stanza(sender: string, items: Option<Items>)

  datatype Items = Items(node: string, notification: bool)

  // ---------- Reconciliation on values ----------

  /** The accounts after the first loop: reused, or new with their flag still to be set. */
  function Loading(w: World, deviceId: string, ids: seq<string>, tokens: seq<Token>): (r: seq<PushAccount>)
    requires |ids| == |tokens|
    ensures |r| == |ids|
  {
    LoadAll(w, deviceId, ids, tokens, false)
  }

  /** The live nodes after some were set up, which takes a connection. */
  function LiveWith(live: set<string>, nodes: set<string>, connected: bool): set<string> {
    if connected then live + nodes else live
  }

  /** The index of the last account with the node. */
  function LastAt(accounts: seq<PushAccount>, node: string): nat {
    if accounts == [] then 0
    else if accounts[|accounts| - 1].node == node then |accounts| - 1
    else LastAt(accounts[..|accounts| - 1], node)
  }

  lemma {:induction false} LastAtIs(accounts: seq<PushAccount>, node: string)
    requires node in AccountNodes(accounts)
    ensures LastAt(accounts, node) < |accounts| && accounts[LastAt(accounts, node)].node == node
    ensures forall j | LastAt(accounts, node) < j < |accounts| :: accounts[j].node != node
  {
    if accounts[|accounts| - 1].node != node {
      LastAtIs(accounts[..|accounts| - 1], node);
    }
  }

  /** The accounts after the flag was set for the last account with each of the nodes. */
  function Flagged(accounts: seq<PushAccount>, nodes: set<string>, success: bool): (r: seq<PushAccount>)
    ensures |r| == |accounts|
  {
    seq(|accounts|, i requires 0 <= i < |accounts| =>
          if accounts[i].node in nodes && i == LastAt(accounts, accounts[i].node)
          then accounts[i].(success := success) else accounts[i])
  }

  /** The accounts agree but for their flags. */
  predicate SameButFlags(a: seq<PushAccount>, b: seq<PushAccount>) {
    |a| == |b| && forall i | 0 <= i < |a| :: a[i].(success := b[i].success) == b[i]
  }

  lemma {:induction false} FlagsDoNotMatter(a: seq<PushAccount>, b: seq<PushAccount>, deviceId: string,
                                            nodes: map<Owner, string>, lists: map<string, seq<Entry>>,
                                            before: set<string>, node: string)
    requires SameButFlags(a, b)
    ensures AccountNodes(a) == AccountNodes(b) && Ids(a) == Ids(b)
    ensures Added(a, before) == Added(b, before) && LastAt(a, node) == LastAt(b, node)
    ensures AddNodes(nodes, deviceId, a) == AddNodes(nodes, deviceId, b)
    ensures AddEntries(lists, deviceId, a) == AddEntries(lists, deviceId, b)
  {
    hide AccountNodes;
    SameNodesAndIds(a, b);
    if a != [] {
      SameNodesAndIds(a[..|a| - 1], b[..|b| - 1]);
      FlagsDoNotMatter(a[..|a| - 1], b[..|b| - 1], deviceId, nodes, lists, before, node);
    }
  }

  lemma SameNodesAndIds(a: seq<PushAccount>, b: seq<PushAccount>)
    requires SameButFlags(a, b)
    ensures AccountNodes(a) == AccountNodes(b) && Ids(a) == Ids(b)
  {
    assert forall i | 0 <= i < |a| :: a[i].node == b[i].node && a[i].accountId == b[i].accountId;
  }

  lemma FlagsOnly(accounts: seq<PushAccount>, nodes: set<string>, success: bool)
    ensures SameButFlags(accounts, Flagged(accounts, nodes, success))
    ensures Flagged(accounts, {}, success) == accounts
  {
    hide LastAt;
  }

  lemma MoreLive(live: set<string>, nodes: set<string>, node: string, connected: bool)
    ensures LiveWith(live, {}, connected) == live
    ensures LiveWith(LiveWith(live, nodes, connected), {node}, connected) == LiveWith(live, nodes + {node}, connected)
  {
  }

  lemma SameLastAt(accounts: seq<PushAccount>, nodes: set<string>, node: string, success: bool)
    ensures LastAt(Flagged(accounts, nodes, success), node) == LastAt(accounts, node)
  {
    hide LastAt, Flagged, AddNodes, AddEntries, Added;
    FlagsOnly(accounts, nodes, success);
    FlagsDoNotMatter(accounts, Flagged(accounts, nodes, success), "", map[], map[], {}, node);
  }

  lemma MoreFlags(accounts: seq<PushAccount>, nodes: set<string>, node: string, success: bool)
    ensures Flagged(Flagged(accounts, nodes, success), {node}, success) == Flagged(accounts, nodes + {node}, success)
  {
    hide LastAt;
    FlagsOnly(accounts, nodes, success);
    FlagsDoNotMatter(accounts, Flagged(accounts, nodes, success), "", map[], map[], {}, node);
  }

  /** What the device is told about its accounts. A new node was set up if there was a connection; a reused node is
      there. Only the last mention of an account that is named again counts as set up another time. */
  function Told(w: World, deviceId: string, ids: seq<string>, tokens: seq<Token>, connected: bool): seq<PushAccount>
    requires |ids| == |tokens|
  {
    seq(|ids|, i requires 0 <= i < |ids| =>
          Load(w, deviceId, ids[i], tokens[i], connected).(
            success := connected || (Routable(w, Owner(deviceId, ids[i]))
                                     && (ids[i] !in ids[..i] || ids[i] in ids[i + 1..]))))
  }

  /** Setting the flags of the added nodes makes the accounts what the device is to be told. */
  lemma FlagsLand(w: World, deviceId: string, ids: seq<string>, tokens: seq<Token>, connected: bool)
    requires Agree(w) && |ids| == |tokens| && New(w, tokens)
    ensures var loading := Loading(w, deviceId, ids, tokens);
            Flagged(loading, Added(loading, DeviceNodes(w, deviceId)), connected)
            == Told(w, deviceId, ids, tokens, connected)
  {
    hide AccountNodes, DeviceNodes, Added, LastAt, Agree, Routable, New, NamedTwice;
    var loading, before := Loading(w, deviceId, ids, tokens), DeviceNodes(w, deviceId);
    LoadAllIsReady(w, deviceId, ids, tokens, false);
    forall i: nat | i < |ids|
      ensures Flagged(loading, Added(loading, before), connected)[i] == Told(w, deviceId, ids, tokens, connected)[i]
    {
      var node := loading[i].node;
      NodeKnown(loading, i);
      LastAtIs(loading, node);
      AddedExactly(loading, before, node);
      if Routable(w, Owner(deviceId, ids[i])) {
        ReusedFlag(w, deviceId, ids, tokens, i);
      } else {
        NewFlag(w, deviceId, ids, tokens, i);
      }
    }
  }

  lemma ReusedFlag(w: World, deviceId: string, ids: seq<string>, tokens: seq<Token>, i: nat)
    requires Agree(w) && |ids| == |tokens| && New(w, tokens) && i < |ids| && Routable(w, Owner(deviceId, ids[i]))
    ensures var loading := Loading(w, deviceId, ids, tokens);
            && loading[i].success && loading[i].node in DeviceNodes(w, deviceId)
            && (NamedTwice(loading, loading[i].node) <==> ids[i] in ids[..i] || ids[i] in ids[i + 1..])
            && (ids[i] in ids[i + 1..] <==> exists j | i < j < |ids| :: loading[j].node == loading[i].node)
  {
    SameAccount(w, deviceId, ids, tokens, i);
    DeviceNodeKnown(w, Owner(deviceId, ids[i]));
    hide AccountNodes, Agree, New, NamedTwice, Routable;
    MentionsCount(ids, Loading(w, deviceId, ids, tokens), i);
  }

  lemma SameAccount(w: World, deviceId: string, ids: seq<string>, tokens: seq<Token>, i: nat)
    requires Agree(w) && |ids| == |tokens| && New(w, tokens) && i < |ids| && Routable(w, Owner(deviceId, ids[i]))
    ensures var loading := Loading(w, deviceId, ids, tokens);
            loading[i].success && loading[i].node == w.nodes[Owner(deviceId, ids[i])]
            && forall j: nat | j < |ids| :: loading[j].node == loading[i].node <==> ids[j] == ids[i]
  {
    hide AccountNodes, New, OwnedBy, Grounded;
    LoadAllIsReady(w, deviceId, ids, tokens, false);
  }

  /** Where a node stands for an account, naming it again is naming the account again. */
  lemma MentionsCount(ids: seq<string>, accounts: seq<PushAccount>, i: nat)
    requires |ids| == |accounts| && i < |ids|
    requires forall j: nat | j < |ids| :: accounts[j].node == accounts[i].node <==> ids[j] == ids[i]
    ensures NamedTwice(accounts, accounts[i].node) <==> ids[i] in ids[..i] || ids[i] in ids[i + 1..]
    ensures ids[i] in ids[i + 1..] <==> exists j | i < j < |ids| :: accounts[j].node == accounts[i].node
  {
    if ids[i] in ids[..i] {
      var j: nat :| j < i && ids[..i][j] == ids[i];
      assert accounts[j].node == accounts[i].node;
    }
    if ids[i] in ids[i + 1..] {
      var j: nat :| j < |ids[i + 1..]| && ids[i + 1..][j] == ids[i];
      assert accounts[i + 1 + j].node == accounts[i].node;
    }
    if NamedTwice(accounts, accounts[i].node) {
      var a, b :| 0 <= a < b < |accounts|
                  && accounts[a].node == accounts[i].node && accounts[b].node == accounts[i].node;
      assert if b > i then ids[i + 1..][b - i - 1] == ids[i] else ids[..i][a] == ids[i];
    }
    if j :| i < j < |ids| && accounts[j].node == accounts[i].node {
      assert ids[i + 1..][j - i - 1] == ids[i];
    }
  }

  lemma NewFlag(w: World, deviceId: string, ids: seq<string>, tokens: seq<Token>, i: nat)
    requires Agree(w) && |ids| == |tokens| && New(w, tokens) && i < |ids| && !Routable(w, Owner(deviceId, ids[i]))
    ensures var loading := Loading(w, deviceId, ids, tokens);
            && loading[i].node !in DeviceNodes(w, deviceId)
            && forall j: nat | j < |ids| && loading[j].node == loading[i].node :: j == i
  {
    var loading := Loading(w, deviceId, ids, tokens);
    LoadAllIsReady(w, deviceId, ids, tokens, false);
  }

  /** While there is a connection, or when no account is named twice, that is the flags of the loaded accounts. */
  lemma ToldOnce(w: World, deviceId: string, ids: seq<string>, tokens: seq<Token>, connected: bool)
    requires |ids| == |tokens| && (connected || Distinct(ids))
    ensures Told(w, deviceId, ids, tokens, connected) == LoadAll(w, deviceId, ids, tokens, connected)
  {
  }

  /** An account is told that its node is set up if and only if the node is live afterwards, but for the last mention
      of an account that is named again without a connection; and without a connection no node comes or goes. */
  lemma ToldIsHonest(s: Server, deviceId: string, version: string, ids: seq<string>, tokens: seq<Token>,
                     connected: bool)
    requires Inv(s) && deviceId in s.world.devices && |ids| == |tokens| && New(s.world, tokens)
    requires forall i | 0 <= i < |tokens| :: tokens[i].node !in s.live
    ensures var told, r := Told(s.world, deviceId, ids, tokens, connected),
                           TakeAccounts(s, deviceId, version, ids, tokens, connected, false);
            && SameButFlags(told, LoadAll(s.world, deviceId, ids, tokens, connected))
            && (forall i | 0 <= i < |ids| ::
                  told[i].success <==> told[i].node in r.live
                                       && (connected || ids[i] !in ids[..i] || ids[i] in ids[i + 1..]))
            && (!connected ==> r.live == s.live)
  {
    hide Store, Agree, AccountNodes, DeviceNodes, CurrentNodes, Added, New;
    var w, accounts := s.world, LoadAll(s.world, deviceId, ids, tokens, connected);
    AddedIsNew(accounts, DeviceNodes(w, deviceId));
    forall i: nat | i < |ids|
      ensures accounts[i].node in AccountNodes(accounts)
      ensures Routable(w, Owner(deviceId, ids[i])) ==> accounts[i].node in s.live
    {
      NodeKnown(accounts, i);
      if Routable(w, Owner(deviceId, ids[i])) {
        DeviceNodeKnown(w, Owner(deviceId, ids[i]));
        DeviceNodesAreCurrent(w, deviceId);
      }
    }
    DeviceNodesAreCurrent(w, deviceId);
  }

  lemma KindsOfNodes(names: Names, db: map<string, Value>, w: World, deviceId: string, ids: seq<string>,
                     tokens: seq<Token>)
    requires Represents(names, db, w) && |ids| == |tokens|
    requires forall i | 0 <= i < |tokens| :: names.IsNode(tokens[i].node)
    ensures var loading := Loading(w, deviceId, ids, tokens);
            forall i | 0 <= i < |loading| :: names.IsNode(loading[i].node)
  {
    hide AccountAt, NodeAt, DeviceAt, Names.IsNode;
  }

  lemma LoadsAlike(w: World, deviceId: string, ids: seq<string>, tokens: seq<Token>, connected: bool)
    requires |ids| == |tokens|
    ensures SameButFlags(LoadAll(w, deviceId, ids, tokens, connected), Loading(w, deviceId, ids, tokens))
  {
  }

  /** The nodes that a request deletes or sets up. */
  function Touched(w: World, deviceId: string, ids: seq<string>, tokens: seq<Token>): set<string>
    requires |ids| == |tokens|
  {
    if deviceId !in w.devices then {}
    else
      var loading, before := Loading(w, deviceId, ids, tokens), DeviceNodes(w, deviceId);
      before - AccountNodes(loading) + Added(loading, before)
  }

  /** What the handler needs to know about the accounts it is about to store. */
  lemma Prepared(s: Server, deviceId: string, version: string, ids: seq<string>, tokens: seq<Token>, connected: bool)
    requires Agree(s.world) && |ids| == |tokens| && New(s.world, tokens) && deviceId in s.world.devices
    ensures var w, uri := s.world, s.world.devices[deviceId].uri;
            var loading, told := Loading(w, deviceId, ids, tokens), Told(w, deviceId, ids, tokens, connected);
            var before := DeviceNodes(w, deviceId);
            && Flagged(loading, Added(loading, before), connected) == told
            && Agree(Store(w, deviceId, uri, version, told, false))
            && TakeAccounts(s, deviceId, version, ids, tokens, connected, false)
               == Server(Store(w, deviceId, uri, version, told, false),
                         if connected then s.live - (before - AccountNodes(loading)) + Added(loading, before)
                         else s.live)
  {
    hide LoadAll, Loading, Told, AccountNodes, DeviceNodes, Agree, Flagged, AddNodes, AddEntries, Added, Ids, Ready,
         New;
    var w, uri := s.world, s.world.devices[deviceId].uri;
    var accounts, loading := LoadAll(w, deviceId, ids, tokens, connected), Loading(w, deviceId, ids, tokens);
    var before := DeviceNodes(w, deviceId);
    FlagsLand(w, deviceId, ids, tokens, connected);
    LoadsAlike(w, deviceId, ids, tokens, connected);
    FlagsOnly(loading, Added(loading, before), connected);
    var f := Forget(w, deviceId, false);
    FlagsDoNotMatter(accounts, loading, deviceId, f.nodes, f.lists, before, "");
    FlagsDoNotMatter(loading, Told(w, deviceId, ids, tokens, connected), deviceId, f.nodes, f.lists, before, "");
    LoadAllIsReady(w, deviceId, ids, tokens, connected);
    StoreAgrees(w, deviceId, uri, version, accounts, false);
  }

  /** One more account of the first loop. */
  lemma NextNode(accounts: seq<PushAccount>, i: nat, before: set<string>)
    requires i < |accounts|
    ensures var front, more, node := accounts[..i], accounts[..i + 1], accounts[i].node;
            && AccountNodes(more) == AccountNodes(front) + {node}
            && Added(more, before)
               == Added(front, before) + (if node in before - AccountNodes(front) then {} else {node})
            && forall n :: LastAt(more, n) == if n == node then i else LastAt(front, n)
  {
    assert accounts[..i + 1][..i] == accounts[..i];
    LastNode(accounts[..i + 1]);
  }

  lemma NoNodes(accounts: seq<PushAccount>)
    ensures AccountNodes(accounts[..0]) == {}
  {
  }

  /** The old nodes as collected from the device list are the nodes of the device. */
  lemma OldNodes(w: World, deviceId: string, nodes: seq<string>)
    requires Agree(w) && |nodes| == |OldIds(w, deviceId)|
    requires forall i: nat | i < |nodes| ::
               var owner := Owner(deviceId, OldIds(w, deviceId)[i]);
               owner in w.nodes && nodes[i] == w.nodes[owner]
    ensures (set node | node in nodes) == DeviceNodes(w, deviceId)
  {
  }

  function Views(accounts: seq<Account>): (views: seq<PushAccount>)
    reads accounts
    ensures |views| == |accounts|
  {
    seq(|accounts|, i requires 0 <= i < |accounts| reads accounts => accounts[i].View())
  }

  /** The accounts are different objects. */
  ghost predicate Several(accounts: seq<Account>) {
    forall i, j | 0 <= i < j < |accounts| :: accounts[i] != accounts[j]
  }

  lemma SeveralGrows(accounts: seq<Account>, account: Account)
    requires Several(accounts) && account !in accounts
    ensures Several(accounts + [account])
  {
  }

  /** Each of the nodes comes with the last account that has it. */
  ghost predicate Latest(accounts: seq<Account>, views: seq<PushAccount>, addNodes: map<string, Account>) {
    forall node | node in addNodes ::
      LastAt(views, node) < |accounts| && addNodes[node] == accounts[LastAt(views, node)]
  }

  lemma LatestHaveNodes(accounts: seq<Account>, addNodes: map<string, Account>, before: set<string>)
    requires Latest(accounts, Views(accounts), addNodes) && addNodes.Keys == Added(Views(accounts), before)
    ensures forall node | node in addNodes :: addNodes[node].node == node
  {
    hide LastAt, Added, AccountNodes;
    AddedIsNew(Views(accounts), before);
    forall node | node in addNodes ensures addNodes[node].node == node {
      LastAtIs(Views(accounts), node);
    }
  }

  lemma LatestOf(accounts: seq<Account>, views: seq<PushAccount>, addNodes: map<string, Account>, node: string)
    requires Latest(accounts, views, addNodes) && node in addNodes
    ensures LastAt(views, node) < |accounts| && addNodes[node] == accounts[LastAt(views, node)]
  {
  }

  lemma LatestGrows(accounts: seq<Account>, account: Account, views: seq<PushAccount>, i: nat, before: set<string>,
                    addNodes: map<string, Account>)
    requires i < |views| && |accounts| == i && Latest(accounts, views[..i], addNodes)
    ensures Latest(accounts + [account], views[..i + 1], addNodes[views[i].node := account])
    ensures views[i].node !in addNodes ==> Latest(accounts + [account], views[..i + 1], addNodes)
  {
    hide LastAt, Added, AccountNodes;
    NextNode(views, i, before);
  }

  lemma NothingAdded(before: set<string>)
    ensures Added([], before) == {} && Latest([], [], map[]) && Several([])
  {
  }

  class PushServer {
    const redisClient: RedisClient
    const xmppClient: XmppClient
    const isValidChannelUri: string -> bool

    constructor (redisClient: RedisClient, xmppClient: XmppClient, isValidChannelUri: string -> bool)
      ensures this.redisClient == redisClient && this.xmppClient == xmppClient
      ensures this.isValidChannelUri == isValidChannelUri
    {
      this.redisClient, this.xmppClient, this.isValidChannelUri := redisClient, xmppClient, isValidChannelUri;
    }

    ghost predicate Valid()
      reads this, redisClient, redisClient.redis
    {
      redisClient.Valid() && Agree(redisClient.world)
    }

    ghost function State(): Server
      reads this, redisClient, xmppClient
    {
      Server(redisClient.world, xmppClient.live)
    }

    method SetChannelUri(deviceId: string, channelUri: string) returns (response: Response)
      requires Valid() && redisClient.names.isDevice(deviceId)
      modifies redisClient.redis, redisClient`world
      ensures Valid()
      ensures response == if isValidChannelUri(channelUri) then Success
                          else Error("Invalid channel URI. Has to use the domain 'notify.windows.com'.")
      ensures State() == if response == Success then Step(old(State()), SetUri(deviceId, channelUri), false)
                         else old(State())
    {
      if !isValidChannelUri(channelUri) {
        return Error("Invalid channel URI. Has to use the domain 'notify.windows.com'.");
      }
      UriAgrees(redisClient.world, deviceId, channelUri);
      hide RedisClient.Valid, Agree, StoreUri;
      redisClient.SetChannelUri(deviceId, channelUri);
      return Success;
    }

    /** Replaces the accounts of a device. Nodes no longer used go, new ones are set up, reused ones stay. */
    method SetPushAccounts(deviceId: string, version: string, ids: seq<string>, tokens: seq<Token>)
      returns (response: Response)
      requires Valid() && redisClient.names.isDevice(deviceId) && |ids| == |tokens| && New(redisClient.world, tokens)
      requires forall i | 0 <= i < |tokens| :: redisClient.names.IsNode(tokens[i].node)
      requires xmppClient.conn || Touched(redisClient.world, deviceId, ids, tokens) == {}
      modifies redisClient.redis, redisClient`world, xmppClient`live
      ensures Valid()
      ensures response == if deviceId !in old(redisClient.world).devices then Error("Device id unknown.")
                          else Accounts(Told(old(redisClient.world), deviceId, ids, tokens, xmppClient.connected))
      ensures State() == TakeAccounts(old(State()), deviceId, version, ids, tokens, xmppClient.connected, false)
    {
      hide Store, LoadAll, Loading, Told, AccountNodes, DeviceNodes, RedisClient.Valid, Agree, Flagged, Added, New;
      var channelUri := redisClient.GetChannelUri(deviceId);
      if channelUri.None? {
        return Error("Device id unknown.");
      }
      Prepared(State(), deviceId, version, ids, tokens, xmppClient.connected);
      hide TakeAccounts;
      var accounts := Replace(deviceId, channelUri.value, version, ids, tokens);
      response := Accounts(accounts);
    }

    /** The request of a known device: first the nodes, then the store. */
    method Replace(deviceId: string, channelUri: string, version: string, ids: seq<string>, tokens: seq<Token>)
      returns (accounts: seq<PushAccount>)
      requires Valid() && redisClient.names.isDevice(deviceId) && |ids| == |tokens|
      requires forall i | 0 <= i < |tokens| :: redisClient.names.IsNode(tokens[i].node)
      requires deviceId in redisClient.world.devices
      requires xmppClient.conn || Touched(redisClient.world, deviceId, ids, tokens) == {}
      modifies redisClient.redis, redisClient`world, xmppClient`live
      ensures redisClient.Valid()
      ensures var loading := Loading(old(redisClient.world), deviceId, ids, tokens);
              var before := DeviceNodes(old(redisClient.world), deviceId);
              && accounts == Flagged(loading, Added(loading, before), xmppClient.connected)
              && State() == Server(Store(old(redisClient.world), deviceId, channelUri, version, accounts, false),
                                   if xmppClient.connected
                                   then old(xmppClient.live) - (before - AccountNodes(loading)) + Added(loading, before)
                                   else old(xmppClient.live))
    {
      KindsOfNodes(redisClient.names, redisClient.redis.db, redisClient.world, deviceId, ids, tokens);
      hide Store, Loading, LoadAll, AccountNodes, DeviceNodes, RedisClient.Valid, Agree, Flagged, Added, Touched;
      accounts := Reconcile(deviceId, ids, tokens);
      ghost var loading := Loading(redisClient.world, deviceId, ids, tokens);
      FlagsOnly(loading, Added(loading, DeviceNodes(redisClient.world, deviceId)), xmppClient.connected);
      redisClient.SetPushAccounts(deviceId, channelUri, version, accounts);
    }

    /** Brings the live nodes in line with the requested accounts, and tells each account how that went. */
    method Reconcile(deviceId: string, ids: seq<string>, tokens: seq<Token>) returns (accounts: seq<PushAccount>)
      requires Valid() && redisClient.names.isDevice(deviceId) && |ids| == |tokens|
      requires deviceId in redisClient.world.devices
      requires xmppClient.conn || Touched(redisClient.world, deviceId, ids, tokens) == {}
      modifies xmppClient`live
      ensures var loading := Loading(redisClient.world, deviceId, ids, tokens);
              var before := DeviceNodes(redisClient.world, deviceId);
              && accounts == Flagged(loading, Added(loading, before), xmppClient.connected)
              && xmppClient.live
                 == if xmppClient.connected
                    then old(xmppClient.live) - (before - AccountNodes(loading)) + Added(loading, before)
                    else old(xmppClient.live)
    {
      hide Loading, AccountNodes, DeviceNodes, RedisClient.Valid, Agree, Views, Flagged, Added, LastAt;
      var oldPushNodes := redisClient.GetPushNodes(deviceId);
      OldNodes(redisClient.world, deviceId, oldPushNodes);
      var pushAccounts, deleteNodes, addNodes := LoadAccounts(deviceId, ids, tokens, (set node | node in oldPushNodes));
      DeleteNodes(deleteNodes);
      LatestHaveNodes(pushAccounts, addNodes, (set node | node in oldPushNodes));
      SetupNodes(pushAccounts, addNodes);
      accounts := Views(pushAccounts);
    }

    /** The loop over the requested accounts: what is reused leaves the nodes to delete, the rest is added. */
    method LoadAccounts(deviceId: string, ids: seq<string>, tokens: seq<Token>, before: set<string>)
      returns (pushAccounts: seq<Account>, deleteNodes: set<string>, addNodes: map<string, Account>)
      requires redisClient.Valid() && redisClient.names.isDevice(deviceId) && |ids| == |tokens|
      ensures forall i: nat | i < |pushAccounts| :: fresh(pushAccounts[i])
      ensures Views(pushAccounts) == Loading(redisClient.world, deviceId, ids, tokens)
      ensures deleteNodes == before - AccountNodes(Views(pushAccounts))
      ensures addNodes.Keys == Added(Views(pushAccounts), before)
      ensures Several(pushAccounts) && Latest(pushAccounts, Views(pushAccounts), addNodes)
    {
      hide RedisClient.Valid, AccountNodes, Added, LastAt, Latest, Several;
      ghost var loading := Loading(redisClient.world, deviceId, ids, tokens);
      pushAccounts, deleteNodes, addNodes := [], before, map[];
      var i := 0;
      NoNodes(loading);
      NothingAdded(before);
      assert loading[..0] == [];
      while i < |ids|
        invariant 0 <= i <= |ids| && |pushAccounts| == i
        invariant forall j: nat | j < i :: fresh(pushAccounts[j])
        invariant forall j: nat | j < i :: pushAccounts[j].View() == loading[j]
        invariant Several(pushAccounts)
        invariant deleteNodes == before - AccountNodes(loading[..i])
        invariant addNodes.Keys == Added(loading[..i], before)
        invariant Latest(pushAccounts, loading[..i], addNodes)
      {
        var account := new Account(ids[i], tokens[i], false);
        SeveralGrows(pushAccounts, account);
        pushAccounts := pushAccounts + [account];
        redisClient.LoadPushAccount(deviceId, account);
        assert account.View() == loading[i];
        NextNode(loading, i, before);
        AddedIsNew(loading[..i], before);
        LatestGrows(pushAccounts[..i], account, loading, i, before, addNodes);
        if account.node in deleteNodes {
          deleteNodes := deleteNodes - {account.node};
        } else {
          addNodes := addNodes[account.node := account];
        }
        i := i + 1;
      }
      assert loading[..i] == loading;
      assert Views(pushAccounts) == loading;
    }

    /** The loop over the old nodes. */
    method DeleteNodes(deleteNodes: set<string>)
      requires xmppClient.conn || deleteNodes == {}
      modifies xmppClient`live
      ensures xmppClient.live == if xmppClient.connected then old(xmppClient.live) - deleteNodes
                                 else old(xmppClient.live)
    {
      var todo := deleteNodes;
      while todo != {}
        invariant todo <= deleteNodes
        invariant xmppClient.live == if xmppClient.connected then old(xmppClient.live) - (deleteNodes - todo)
                                     else old(xmppClient.live)
        decreases |todo|
      {
        var node :| node in todo;
        xmppClient.DeletePushNode(node);
        todo := todo - {node};
      }
    }

    /** Sets up one node, and writes the flag of its account through the reference. */
    method SetupNode(pushAccounts: seq<Account>, account: Account)
      requires Several(pushAccounts) && xmppClient.conn
      requires var at := LastAt(Views(pushAccounts), account.node); at < |pushAccounts| && pushAccounts[at] == account
      modifies xmppClient`live, account`success
      ensures xmppClient.live == LiveWith(old(xmppClient.live), {account.node}, xmppClient.connected)
      ensures Views(pushAccounts) == Flagged(old(Views(pushAccounts)), {account.node}, xmppClient.connected)
    {
      hide LastAt;
      ghost var views := Views(pushAccounts);
      account.success := xmppClient.SetupPushNode(account.node);
      forall i: nat | i < |pushAccounts|
        ensures Views(pushAccounts)[i] == Flagged(views, {account.node}, xmppClient.connected)[i]
      {
      }
    }

    /** The loop over the new nodes: the flag written through the stored reference lands on the last account that
        has the node, and on no other. */
    method SetupNodes(pushAccounts: seq<Account>, addNodes: map<string, Account>)
      requires Several(pushAccounts) && Latest(pushAccounts, Views(pushAccounts), addNodes)
      requires forall node | node in addNodes :: addNodes[node].node == node
      requires xmppClient.conn || addNodes.Keys == {}
      modifies xmppClient`live, pushAccounts
      ensures xmppClient.live == LiveWith(old(xmppClient.live), addNodes.Keys, xmppClient.connected)
      ensures Views(pushAccounts) == Flagged(old(Views(pushAccounts)), addNodes.Keys, xmppClient.connected)
    {
      hide Flagged, Views, Account.View, LiveWith, LastAt, Several, Latest;
      ghost var views := Views(pushAccounts);
      MoreLive(xmppClient.live, {}, "", xmppClient.connected);
      FlagsOnly(views, {}, xmppClient.connected);
      var todo := addNodes.Keys;
      ghost var done := {};
      while todo != {}
        invariant done + todo == addNodes.Keys
        invariant xmppClient.live == LiveWith(old(xmppClient.live), done, xmppClient.connected)
        invariant forall node | node in addNodes :: addNodes[node].node == node
        invariant Views(pushAccounts) == Flagged(views, done, xmppClient.connected)
        decreases |todo|
      {
        var node :| node in todo;
        LatestOf(pushAccounts, views, addNodes, node);
        SameLastAt(views, done, node, xmppClient.connected);
        MoreLive(old(xmppClient.live), done, node, xmppClient.connected);
        MoreFlags(views, done, node, xmppClient.connected);
        SetupNode(pushAccounts, addNodes[node]);
        todo, done := todo - {node}, done + {node};
      }
    }

    // ----- Messages -----

    /** A message of the account itself with a notification inside is routed by its node; others are dropped. */
    method MessageHandler(stanza: Stanza) returns (push: Push)
      requires Valid()
      requires stanza.items.Some? ==> redisClient.names.IsNode(stanza.items.value.node)
      ensures push == if stanza.sender == xmppClient.jid && stanza.items.Some? && stanza.items.value.notification
                      then Route(redisClient.world, stanza.items.value.node)
                      else Dropped
    {
      if stanza.sender != xmppClient.jid || stanza.items.None? || !stanza.items.value.notification {
        return Dropped;
      }
      var node := stanza.items.value.node;
      var accountId := redisClient.GetAccountId(node);
      if accountId.None? {
        return Dropped;
      }
      EntryDevice(redisClient.names, redisClient.redis.db, redisClient.world, node);
      hide RedisClient.Valid, Agree;
      var deviceId := redisClient.GetDeviceId(node);
      var version := None;
      if deviceId.Some? {
        version := redisClient.GetVersion(deviceId.value);
      }
      if version == Some("2") {
        push := OnV2MessageForNode(node, accountId.value);
      } else {
        push := OnV1MessageForNode(node);
      }
    }

    method OnV1MessageForNode(node: string) returns (push: Push)
      requires Valid() && redisClient.names.IsNode(node)
      ensures push == match Route(redisClient.world, node)
                      case Dropped => Dropped
                      case V1(uri) => V1(uri)
                      case V2(uri, _) => V1(uri)
    {
      var deviceId := redisClient.GetDeviceId(node);
      if deviceId.None? {
        return Dropped;
      }
      EntryDevice(redisClient.names, redisClient.redis.db, redisClient.world, node);
      hide RedisClient.Valid, Agree;
      var channelUri := redisClient.GetChannelUri(deviceId.value);
      if channelUri.None? {
        return Dropped;
      }
      push := V1(channelUri.value);
    }

    method OnV2MessageForNode(node: string, accountId: string) returns (push: Push)
      requires Valid() && redisClient.names.IsNode(node)
      ensures push == match Route(redisClient.world, node)
                      case Dropped => Dropped
                      case V1(uri) => V2(uri, accountId)
                      case V2(uri, _) => V2(uri, accountId)
    {
      var deviceId := redisClient.GetDeviceId(node);
      if deviceId.None? {
        return Dropped;
      }
      EntryDevice(redisClient.names, redisClient.redis.db, redisClient.world, node);
      hide RedisClient.Valid, Agree;
      var channelUri := redisClient.GetChannelUri(deviceId.value);
      if channelUri.None? {
        return Dropped;
      }
      push := V2(channelUri.value, accountId);
    }
  }

  /** The device an entry names is a device. */
  lemma EntryDevice(names: Names, db: map<string, Value>, w: World, node: string)
    requires Represents(names, db, w) && Agree(w)
    ensures Resolves(w, node) ==> w.lists[node][0].deviceId in w.devices && names.isDevice(w.lists[node][0].deviceId)
  {
  }
}
