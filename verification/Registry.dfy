/** The push registrations as one abstract state, and what requests do to it: which devices are known,
    which node each account of a device was given, and what each node's list holds. */
module Registry {
  import opened Options

  /** A device: where to push to, the protocol version once accounts were set, and its account ids. */
  datatype Device = Device(uri: string, version: Option<string>, ids: seq<string>)

  datatype Owner = Owner(deviceId: string, accountId: string)

  datatype Entry = Entry(accountId: string, deviceId: string, secret: string)

  datatype PushAccount = PushAccount(accountId: string, node: string, secret: string, success: bool)

  datatype World = World(devices: map<string, Device>, nodes: map<Owner, string>, lists: map<string, seq<Entry>>)

  const EMPTY := World(map[], map[], map[])

  function Ids(accounts: seq<PushAccount>): seq<string> {
    seq(|accounts|, i requires 0 <= i < |accounts| => accounts[i].accountId)
  }

  // ---------- Lookups ----------

  /** A node resolves when its list holds exactly one entry. */
  predicate Resolves(w: World, node: string) {
    node in w.lists && |w.lists[node]| == 1
  }

  /** The account has a node, and messages for that node find their way. */
  predicate Routable(w: World, owner: Owner) {
    owner in w.nodes && Resolves(w, w.nodes[owner])
  }

  function DeviceNodes(w: World, deviceId: string): set<string> {
    set owner | owner in w.nodes && owner.deviceId == deviceId :: w.nodes[owner]
  }

  function CurrentNodes(w: World): set<string> {
    set owner | owner in w.nodes :: w.nodes[owner]
  }

  // ---------- Storing accounts ----------

  /** The owners a list of account ids stands for. */
  function Owners(deviceId: string, ids: seq<string>): set<Owner> {
    set id | id in ids :: Owner(deviceId, id)
  }

  function AddNodes(nodes: map<Owner, string>, deviceId: string, accounts: seq<PushAccount>): map<Owner, string> {
    if accounts == [] then nodes
    else
      var last := accounts[|accounts| - 1];
      AddNodes(nodes, deviceId, accounts[..|accounts| - 1])[Owner(deviceId, last.accountId) := last.node]
  }

  function Append(lists: map<string, seq<Entry>>, node: string, entry: Entry): map<string, seq<Entry>> {
    lists[node := (if node in lists then lists[node] else []) + [entry]]
  }

  function AddEntries(lists: map<string, seq<Entry>>, deviceId: string, accounts: seq<PushAccount>)
    : map<string, seq<Entry>>
  {
    if accounts == [] then lists
    else
      var last := accounts[|accounts| - 1];
      Append(AddEntries(lists, deviceId, accounts[..|accounts| - 1]), last.node,
             Entry(last.accountId, deviceId, last.secret))
  }

  function OldIds(w: World, deviceId: string): seq<string> {
    if deviceId in w.devices then w.devices[deviceId].ids else []
  }

  function NodesOf(nodes: map<Owner, string>, owners: set<Owner>): set<string> {
    set owner | owner in owners && owner in nodes :: nodes[owner]
  }

  /** The world without a device's accounts: as written the lists of their nodes stay, in the variant that
      reads each account before deleting it they go as well. */
  function Forget(w: World, deviceId: string, readFirst: bool): World {
    var gone := Owners(deviceId, OldIds(w, deviceId));
    World(w.devices - {deviceId}, w.nodes - gone, if readFirst then w.lists - NodesOf(w.nodes, gone) else w.lists)
  }

  function Store(w: World, deviceId: string, uri: string, version: string, accounts: seq<PushAccount>,
                 readFirst: bool): World {
    var f := Forget(w, deviceId, readFirst);
    World(f.devices[deviceId := Device(uri, Some(version), Ids(accounts))],
          AddNodes(f.nodes, deviceId, accounts),
          AddEntries(f.lists, deviceId, accounts))
  }

  function StoreUri(w: World, deviceId: string, uri: string): World {
    w.(devices := w.devices[deviceId := if deviceId in w.devices then w.devices[deviceId].(uri := uri)
                                        else Device(uri, None, [])])
  }

  // ---------- Requests ----------

  /** A node name and a secret as generated for a new account. */
  datatype Token = Token(node: string, secret: string)

  /** An account as it is about to be stored: reused when it is routable, else with its new token. */
  function Load(w: World, deviceId: string, id: string, token: Token, connected: bool): PushAccount {
    var owner := Owner(deviceId, id);
    if Routable(w, owner) then PushAccount(id, w.nodes[owner], w.lists[w.nodes[owner]][0].secret, true)
    else PushAccount(id, token.node, token.secret, connected)
  }

  function LoadAll(w: World, deviceId: string, ids: seq<string>, tokens: seq<Token>,
                   connected: bool): (r: seq<PushAccount>)
    requires |ids| == |tokens|
    ensures |r| == |ids|
  {
    seq(|ids|, i requires 0 <= i < |ids| => Load(w, deviceId, ids[i], tokens[i], connected))
  }

  datatype Request =
    | SetUri(deviceId: string, uri: string)
    | SetAccounts(deviceId: string, version: string, ids: seq<string>, tokens: seq<Token>)

  /** The server: the registrations and the live PubSub nodes of the XMPP account. */
  datatype Server = Server(world: World, live: set<string>)

  predicate Distinct<T(==)>(s: seq<T>) {
    forall i, j | 0 <= i < j < |s| :: s[i] != s[j]
  }

  function TokenNodes(tokens: seq<Token>): seq<string> {
    seq(|tokens|, i requires 0 <= i < |tokens| => tokens[i].node)
  }

  /** Generated node names are new. */
  predicate New(w: World, tokens: seq<Token>) {
    Distinct(TokenNodes(tokens)) && forall i | 0 <= i < |tokens| :: tokens[i].node !in w.lists
  }

  /** A request as it can arrive: generated node names are new. */
  predicate Possible(s: Server, request: Request) {
    match request
    case SetUri(_, _) => true
    case SetAccounts(_, _, ids, tokens) =>
      && |tokens| == |ids| && New(s.world, tokens)
      && forall i | 0 <= i < |tokens| :: tokens[i].node !in s.live
  }

  /** The nodes that are set up: all but the old ones, and those of accounts named more than once. */
  function Added(accounts: seq<PushAccount>, before: set<string>): set<string> {
    if accounts == [] then {}
    else
      var front, node := accounts[..|accounts| - 1], accounts[|accounts| - 1].node;
      Added(front, before) + if node in before - AccountNodes(front) then {} else {node}
  }

  /** An accepted account list, with or without a connection to change the live nodes by. */
  function TakeAccounts(s: Server, deviceId: string, version: string, ids: seq<string>, tokens: seq<Token>,
                        connected: bool, readFirst: bool): Server
    requires |ids| == |tokens|
  {
    if deviceId !in s.world.devices then s
    else
      var accounts := LoadAll(s.world, deviceId, ids, tokens, connected);
      var before, after := DeviceNodes(s.world, deviceId), AccountNodes(accounts);
      Server(Store(s.world, deviceId, s.world.devices[deviceId].uri, version, accounts, readFirst),
             if connected then s.live - (before - after) + Added(accounts, before) else s.live)
  }

  /** One request with the XMPP client connected. */
  function Step(s: Server, request: Request, readFirst: bool): Server
    requires Possible(s, request)
  {
    match request
    case SetUri(deviceId, uri) => s.(world := StoreUri(s.world, deviceId, uri))
    case SetAccounts(deviceId, version, ids, tokens) => TakeAccounts(s, deviceId, version, ids, tokens, true, readFirst)
  }

  function AccountNodes(accounts: seq<PushAccount>): set<string> {
    set i | 0 <= i < |accounts| :: accounts[i].node
  }

  // ---------- The invariant of every run ----------

  /** Forward and reverse index agree: the accounts with a node are those the devices list, no two share
      one, and the list of every current node names its owner in every entry. */
  ghost predicate Agree(w: World) {
    && (forall owner: Owner :: owner in w.nodes <==>
          owner.deviceId in w.devices && owner.accountId in w.devices[owner.deviceId].ids)
    && (forall a, b | a in w.nodes && b in w.nodes && w.nodes[a] == w.nodes[b] :: a == b)
    && (forall owner | owner in w.nodes :: w.nodes[owner] in w.lists && OwnedBy(w.lists[w.nodes[owner]], owner))
    && (forall node | node in w.lists :: w.lists[node] != [])
    && (forall d | d in w.devices && w.devices[d].version.None? :: w.devices[d].ids == [])
    && (forall node | node in w.lists :: Grounded(w.devices.Keys, w.lists[node]))
  }

  /** Every entry names a known device. */
  predicate Grounded(devices: set<string>, entries: seq<Entry>) {
    forall i | 0 <= i < |entries| :: entries[i].deviceId in devices
  }

  predicate OwnedBy(entries: seq<Entry>, owner: Owner) {
    forall i | 0 <= i < |entries| :: entries[i].accountId == owner.accountId && entries[i].deviceId == owner.deviceId
  }

  ghost predicate Inv(s: Server) {
    Agree(s.world) && CurrentNodes(s.world) <= s.live
  }

  /** In the variant, if no list names an account twice, the lists hold the current nodes alone, with one entry each. */
  ghost predicate Clean(w: World) {
    w.lists.Keys == CurrentNodes(w) && forall node | node in w.lists :: |w.lists[node]| == 1
  }

  // ---------- What storing accounts changes ----------

  predicate DistinctNodes(accounts: seq<PushAccount>) {
    forall i, j | 0 <= i < j < |accounts| :: accounts[i].node != accounts[j].node
  }

  function Owned(deviceId: string, accounts: seq<PushAccount>, i: nat): Owner
    requires i < |accounts|
  {
    Owner(deviceId, accounts[i].accountId)
  }

  /** No later account of the list has the same id. */
  predicate LastOfId(accounts: seq<PushAccount>, i: nat)
    requires i < |accounts|
  {
    forall j | i < j < |accounts| :: accounts[j].accountId != accounts[i].accountId
  }

  /** Every account gets its node, the last one of those with one id. */
  lemma {:induction false} AddNodesAt(nodes: map<Owner, string>, deviceId: string, accounts: seq<PushAccount>)
    ensures var r := AddNodes(nodes, deviceId, accounts);
            && r.Keys == nodes.Keys + Owners(deviceId, Ids(accounts))
            && (forall i: nat | i < |accounts| && LastOfId(accounts, i) ::
                  Owned(deviceId, accounts, i) in r && r[Owned(deviceId, accounts, i)] == accounts[i].node)
            && (forall owner | owner in nodes && owner !in Owners(deviceId, Ids(accounts)) :: r[owner] == nodes[owner])
  {
    hide Owners, Ids, LastOfId;
    if accounts == [] {
      NoOwnersLast(deviceId);
    } else {
      var front := accounts[..|accounts| - 1];
      LastOwner(deviceId, accounts);
      AddNodesAt(nodes, deviceId, front);
      forall i: nat | i < |accounts| && LastOfId(accounts, i)
        ensures Owned(deviceId, accounts, i) in AddNodes(nodes, deviceId, accounts)
        ensures AddNodes(nodes, deviceId, accounts)[Owned(deviceId, accounts, i)] == accounts[i].node
      {
        if i < |front| {
          assert LastOfId(front, i);
        }
      }
    }
  }

  lemma NoOwnersLast(deviceId: string)
    ensures Owners(deviceId, Ids([])) == {}
  {
  }

  lemma LastOwner(deviceId: string, accounts: seq<PushAccount>)
    requires accounts != []
    ensures var front, last := accounts[..|accounts| - 1], accounts[|accounts| - 1];
            && Owners(deviceId, Ids(accounts)) == Owners(deviceId, Ids(front)) + {Owner(deviceId, last.accountId)}
            && (forall i: nat | i < |front| && LastOfId(accounts, i) ::
                  LastOfId(front, i) && Owned(deviceId, accounts, i) == Owned(deviceId, front, i)
                  && Owned(deviceId, accounts, i) != Owner(deviceId, last.accountId))
  {
    var front, last := accounts[..|accounts| - 1], accounts[|accounts| - 1];
    assert Ids(accounts) == Ids(front) + [last.accountId];
  }

  /** The entries that accounts bring to the list of a node, in order. */
  function EntriesFor(deviceId: string, accounts: seq<PushAccount>, node: string): seq<Entry> {
    if accounts == [] then []
    else
      var last := accounts[|accounts| - 1];
      EntriesFor(deviceId, accounts[..|accounts| - 1], node)
      + if last.node == node then [Entry(last.accountId, deviceId, last.secret)] else []
  }

  /** Every list is appended the entries of its own accounts, and no other. */
  lemma {:induction false} AddEntriesAt(lists: map<string, seq<Entry>>, deviceId: string, accounts: seq<PushAccount>)
    ensures var r := AddEntries(lists, deviceId, accounts);
            && r.Keys == lists.Keys + AccountNodes(accounts)
            && (forall node | node in r ::
                  r[node] == (if node in lists then lists[node] else []) + EntriesFor(deviceId, accounts, node))
  {
    hide AccountNodes, EntriesFor;
    if accounts == [] {
      NoAccountNodes();
      assert forall node :: EntriesFor(deviceId, [], node) == [] by { NoEntries(deviceId); }
    } else {
      var front, last := accounts[..|accounts| - 1], accounts[|accounts| - 1];
      AddEntriesAt(lists, deviceId, front);
      LastNode(accounts);
      NoEntriesFor(deviceId, front, last.node);
      forall node | node in AddEntries(lists, deviceId, accounts)
        ensures AddEntries(lists, deviceId, accounts)[node]
                == (if node in lists then lists[node] else []) + EntriesFor(deviceId, accounts, node)
      {
        NextEntries(deviceId, accounts, node);
      }
    }
  }

  lemma NoEntries(deviceId: string)
    ensures forall node :: EntriesFor(deviceId, [], node) == []
  {
  }

  lemma NextEntries(deviceId: string, accounts: seq<PushAccount>, node: string)
    requires accounts != []
    ensures var front, last := accounts[..|accounts| - 1], accounts[|accounts| - 1];
            EntriesFor(deviceId, accounts, node)
            == EntriesFor(deviceId, front, node)
               + if last.node == node then [Entry(last.accountId, deviceId, last.secret)] else []
  {
  }

  lemma NoAccountNodes()
    ensures AccountNodes([]) == {}
  {
  }

  lemma {:induction false} NoEntriesFor(deviceId: string, accounts: seq<PushAccount>, node: string)
    ensures node !in AccountNodes(accounts) ==> EntriesFor(deviceId, accounts, node) == []
  {
    if accounts != [] {
      NoEntriesFor(deviceId, accounts[..|accounts| - 1], node);
      LastNode(accounts);
    }
  }

  /** Entries for a node are of the accounts that have it; a node that one account has gets one entry. */
  lemma {:induction false} EntriesForAt(deviceId: string, accounts: seq<PushAccount>, i: nat)
    requires i < |accounts|
    ensures var r := EntriesFor(deviceId, accounts, accounts[i].node);
            && r != []
            && (r == [Entry(accounts[i].accountId, deviceId, accounts[i].secret)]
                || exists j: nat | j < |accounts| :: j != i && accounts[j].node == accounts[i].node)
    decreases accounts
  {
    var front, last, node := accounts[..|accounts| - 1], accounts[|accounts| - 1], accounts[i].node;
    if i < |front| {
      EntriesForAt(deviceId, front, i);
      if j: nat :| j < |front| && j != i && front[j].node == node {
        assert accounts[j].node == node;
      } else if last.node == node {
        assert accounts[|front|].node == node;
      }
    } else if node in AccountNodes(front) {
      var j: nat :| j < |front| && front[j].node == node;
      assert accounts[j].node == node;
    } else {
      NoEntriesFor(deviceId, front, node);
    }
  }

  lemma {:induction false} EntriesAreOf(deviceId: string, accounts: seq<PushAccount>, node: string)
    ensures forall k | 0 <= k < |EntriesFor(deviceId, accounts, node)| ::
              var e := EntriesFor(deviceId, accounts, node)[k];
              e.deviceId == deviceId
              && exists i: nat | i < |accounts| :: accounts[i].node == node && accounts[i].accountId == e.accountId
    decreases accounts
  {
    if accounts != [] {
      var front := accounts[..|accounts| - 1];
      EntriesAreOf(deviceId, front, node);
      forall k | 0 <= k < |EntriesFor(deviceId, accounts, node)|
        ensures var e := EntriesFor(deviceId, accounts, node)[k];
                e.deviceId == deviceId
                && exists i: nat | i < |accounts| :: accounts[i].node == node && accounts[i].accountId == e.accountId
      {
        var e := EntriesFor(deviceId, accounts, node)[k];
        if k < |EntriesFor(deviceId, front, node)| {
          var i: nat :| i < |front| && front[i].node == node && front[i].accountId == e.accountId;
          assert accounts[i].node == node && accounts[i].accountId == e.accountId;
        } else {
          assert accounts[|front|].node == node && accounts[|front|].accountId == e.accountId;
        }
      }
    }
  }

  function WithNode(accounts: seq<PushAccount>, node: string): set<nat> {
    set i: nat | i < |accounts| && accounts[i].node == node
  }

  /** The list of a node gets one entry for each account that has it, named again or not. */
  lemma {:induction false} EntriesAreCounted(deviceId: string, accounts: seq<PushAccount>, node: string)
    ensures |EntriesFor(deviceId, accounts, node)| == |WithNode(accounts, node)|
  {
    if accounts == [] {
      assert WithNode(accounts, node) == {};
    } else {
      var front := accounts[..|accounts| - 1];
      EntriesAreCounted(deviceId, front, node);
      assert WithNode(accounts, node)
          == WithNode(front, node) + if accounts[|front|].node == node then {|front|} else {};
    }
  }

  lemma LastNode(accounts: seq<PushAccount>)
    requires accounts != []
    ensures var front, last := accounts[..|accounts| - 1], accounts[|accounts| - 1];
            AccountNodes(accounts) == AccountNodes(front) + {last.node}
    ensures forall i: nat | i < |accounts| :: accounts[i].node in AccountNodes(accounts)
  {
  }

  // ---------- Accounts ready to be stored ----------

  /** What loading promises about accounts that are about to be stored for a device: a routable account comes with
      its node, any other with a new one that no other account has. */
  ghost predicate Ready(w: World, deviceId: string, accounts: seq<PushAccount>) {
    && (forall i: nat | i < |accounts| ::
          if Routable(w, Owned(deviceId, accounts, i)) then accounts[i].node == w.nodes[Owned(deviceId, accounts, i)]
          else accounts[i].node !in w.lists)
    && (forall i: nat, j: nat | i < j < |accounts| && accounts[i].node == accounts[j].node ::
          accounts[i].accountId == accounts[j].accountId && Routable(w, Owned(deviceId, accounts, i)))
  }

  lemma LoadAllIsReady(w: World, deviceId: string, ids: seq<string>, tokens: seq<Token>, connected: bool)
    requires Agree(w) && |ids| == |tokens| && New(w, tokens)
    ensures Ready(w, deviceId, LoadAll(w, deviceId, ids, tokens, connected))
    ensures Ids(LoadAll(w, deviceId, ids, tokens, connected)) == ids
  {
    var accounts := LoadAll(w, deviceId, ids, tokens, connected);
    assert Ids(accounts) == ids;
    forall i: nat, j: nat | i < j < |accounts| && accounts[i].node == accounts[j].node
      ensures accounts[i].accountId == accounts[j].accountId && Routable(w, Owned(deviceId, accounts, i))
    {
      assert TokenNodes(tokens)[i] != TokenNodes(tokens)[j];
    }
  }

  /** Everything about the stored world: who has which node, and what is in which list. */
  lemma StoreExactly(w: World, deviceId: string, uri: string, version: string, accounts: seq<PushAccount>,
                     readFirst: bool)
    requires Agree(w)
    ensures var r := Store(w, deviceId, uri, version, accounts, readFirst);
            && r.devices == w.devices[deviceId := Device(uri, Some(version), Ids(accounts))]
            && (forall owner: Owner :: owner in r.nodes <==>
                  if owner.deviceId == deviceId then owner.accountId in Ids(accounts) else owner in w.nodes)
            && (forall i: nat | i < |accounts| && LastOfId(accounts, i) ::
                  Owned(deviceId, accounts, i) in r.nodes && r.nodes[Owned(deviceId, accounts, i)] == accounts[i].node)
            && (forall owner | owner in w.nodes && owner.deviceId != deviceId :: r.nodes[owner] == w.nodes[owner])
    ensures var r := Store(w, deviceId, uri, version, accounts, readFirst);
            var kept := if readFirst then w.lists - DeviceNodes(w, deviceId) else w.lists;
            && r.lists.Keys == kept.Keys + AccountNodes(accounts)
            && (forall node | node in r.lists ::
                  r.lists[node] == (if node in kept then kept[node] else []) + EntriesFor(deviceId, accounts, node))
    ensures forall node | node !in AccountNodes(accounts) :: EntriesFor(deviceId, accounts, node) == []
  {
    hide AddNodes, AddEntries, AccountNodes, EntriesFor, LastOfId, Forget, Owners, Agree, DeviceNodes, Ids;
    var f := Forget(w, deviceId, readFirst);
    ForgetExactly(w, deviceId, readFirst);
    OwnersAre(deviceId, Ids(accounts));
    AddNodesAt(f.nodes, deviceId, accounts);
    AddEntriesAt(f.lists, deviceId, accounts);
    forall node | node !in AccountNodes(accounts) ensures EntriesFor(deviceId, accounts, node) == [] {
      NoEntriesFor(deviceId, accounts, node);
    }
  }

  lemma ForgetExactly(w: World, deviceId: string, readFirst: bool)
    requires Agree(w)
    ensures var f := Forget(w, deviceId, readFirst);
            && f.devices == w.devices - {deviceId}
            && f.lists == (if readFirst then w.lists - DeviceNodes(w, deviceId) else w.lists)
            && (forall owner: Owner :: owner in f.nodes <==> owner in w.nodes && owner.deviceId != deviceId)
            && (forall owner | owner in f.nodes :: f.nodes[owner] == w.nodes[owner])
  {
    hide Agree, Owners, NodesOf, DeviceNodes;
    GoneNodes(w, deviceId);
  }

  lemma OwnersAre(deviceId: string, ids: seq<string>)
    ensures forall owner: Owner ::
              owner in Owners(deviceId, ids) <==> owner.deviceId == deviceId && owner.accountId in ids
  {
  }

  lemma GoneNodes(w: World, deviceId: string)
    requires Agree(w)
    ensures var gone := Owners(deviceId, OldIds(w, deviceId));
            && (forall owner: Owner :: owner in gone <==> owner in w.nodes && owner.deviceId == deviceId)
            && NodesOf(w.nodes, gone) == DeviceNodes(w, deviceId)
  {
  }

  /** No one else's node is among those of accounts that are ready. */
  lemma NodesNotShared(w: World, deviceId: string, accounts: seq<PushAccount>, owner: Owner)
    requires Agree(w) && Ready(w, deviceId, accounts)
    requires owner in w.nodes && owner.deviceId != deviceId
    ensures w.nodes[owner] !in AccountNodes(accounts) && w.nodes[owner] !in DeviceNodes(w, deviceId)
  {
  }

  lemma {:induction false} IndexOf(deviceId: string, accounts: seq<PushAccount>, owner: Owner) returns (i: nat)
    requires owner.deviceId == deviceId && owner.accountId in Ids(accounts)
    ensures i < |accounts| && LastOfId(accounts, i)
    ensures Owned(deviceId, accounts, i) == owner && accounts[i].node in AccountNodes(accounts)
    decreases accounts
  {
    var front, last := accounts[..|accounts| - 1], accounts[|accounts| - 1];
    if last.accountId == owner.accountId {
      i := |front|;
    } else {
      assert Ids(accounts) == Ids(front) + [last.accountId];
      i := IndexOf(deviceId, front, owner);
      assert accounts[i] == front[i];
    }
  }

  lemma {:induction false} StoredNode(w: World, deviceId: string, uri: string, version: string,
                                      accounts: seq<PushAccount>, readFirst: bool, owner: Owner) returns (i: nat)
    requires Agree(w) && owner in Store(w, deviceId, uri, version, accounts, readFirst).nodes
    requires owner.deviceId == deviceId
    ensures i < |accounts| && LastOfId(accounts, i) && Owned(deviceId, accounts, i) == owner
    ensures Store(w, deviceId, uri, version, accounts, readFirst).nodes[owner] == accounts[i].node
    ensures accounts[i].node in AccountNodes(accounts)
  {
    hide Store, AccountNodes, DeviceNodes, Agree, EntriesFor, Ids, LastOfId;
    StoreExactly(w, deviceId, uri, version, accounts, readFirst);
    i := IndexOf(deviceId, accounts, owner);
  }

  lemma OtherNode(w: World, deviceId: string, uri: string, version: string, accounts: seq<PushAccount>, readFirst: bool,
                  owner: Owner)
    requires Agree(w) && owner.deviceId != deviceId
    ensures var r := Store(w, deviceId, uri, version, accounts, readFirst);
            (owner in r.nodes <==> owner in w.nodes) && (owner in w.nodes ==> r.nodes[owner] == w.nodes[owner])
  {
    hide Store, AccountNodes, DeviceNodes, Agree, EntriesFor, Ids, LastOfId;
    StoreExactly(w, deviceId, uri, version, accounts, readFirst);
  }

  /** The list of one node after storing. */
  lemma StoredList(w: World, deviceId: string, uri: string, version: string, accounts: seq<PushAccount>,
                   readFirst: bool,
                   node: string)
    requires Agree(w)
    ensures var r := Store(w, deviceId, uri, version, accounts, readFirst);
            var kept := node in w.lists && !(readFirst && node in DeviceNodes(w, deviceId));
            && (node in r.lists <==> kept || node in AccountNodes(accounts))
            && (node in r.lists ==>
                  r.lists[node] == (if kept then w.lists[node] else []) + EntriesFor(deviceId, accounts, node))
            && (node !in AccountNodes(accounts) ==> EntriesFor(deviceId, accounts, node) == [])
  {
    hide Store, AccountNodes, DeviceNodes, Agree, EntriesFor, Ids, LastOfId;
    StoreExactly(w, deviceId, uri, version, accounts, readFirst);
  }

  lemma StoreInjective(w: World, deviceId: string, uri: string, version: string, accounts: seq<PushAccount>,
                       readFirst: bool,
                       a: Owner, b: Owner)
    requires Agree(w) && Ready(w, deviceId, accounts)
    requires var r := Store(w, deviceId, uri, version, accounts, readFirst);
             a in r.nodes && b in r.nodes && r.nodes[a] == r.nodes[b]
    ensures a == b
  {
    if a.deviceId != deviceId && b.deviceId != deviceId {
      OtherNode(w, deviceId, uri, version, accounts, readFirst, a);
      OtherNode(w, deviceId, uri, version, accounts, readFirst, b);
    } else if a.deviceId == deviceId {
      StoreSeparates(w, deviceId, uri, version, accounts, readFirst, a, b);
    } else {
      StoreSeparates(w, deviceId, uri, version, accounts, readFirst, b, a);
    }
  }

  lemma StoreSeparates(w: World, deviceId: string, uri: string, version: string, accounts: seq<PushAccount>,
                       readFirst: bool,
                       a: Owner, b: Owner)
    requires Agree(w) && Ready(w, deviceId, accounts) && a.deviceId == deviceId
    requires var r := Store(w, deviceId, uri, version, accounts, readFirst);
             a in r.nodes && b in r.nodes && r.nodes[a] == r.nodes[b]
    ensures a == b
  {
    hide Store, AccountNodes, DeviceNodes, Agree, LastOfId, Routable;
    var i := StoredNode(w, deviceId, uri, version, accounts, readFirst, a);
    if b.deviceId == deviceId {
      var j := StoredNode(w, deviceId, uri, version, accounts, readFirst, b);
    } else {
      OtherNode(w, deviceId, uri, version, accounts, readFirst, b);
      NodesNotShared(w, deviceId, accounts, b);
    }
  }

  /** All entries for the node of a ready account are the account's own. */
  lemma OwnEntries(w: World, deviceId: string, accounts: seq<PushAccount>, i: nat)
    requires Ready(w, deviceId, accounts) && i < |accounts|
    ensures OwnedBy(EntriesFor(deviceId, accounts, accounts[i].node), Owned(deviceId, accounts, i))
  {
    hide EntriesFor, Routable;
    EntriesAreOf(deviceId, accounts, accounts[i].node);
  }

  lemma StoreOwned(w: World, deviceId: string, uri: string, version: string, accounts: seq<PushAccount>,
                   readFirst: bool,
                   owner: Owner)
    requires Agree(w) && Ready(w, deviceId, accounts)
    requires owner in Store(w, deviceId, uri, version, accounts, readFirst).nodes
    ensures var r := Store(w, deviceId, uri, version, accounts, readFirst);
            r.nodes[owner] in r.lists && OwnedBy(r.lists[r.nodes[owner]], owner)
  {
    hide Store, AccountNodes, DeviceNodes, EntriesFor, LastOfId, Grounded;
    StoredList(w, deviceId, uri, version, accounts, readFirst,
               Store(w, deviceId, uri, version, accounts, readFirst).nodes[owner]);
    if owner.deviceId == deviceId {
      var i := StoredNode(w, deviceId, uri, version, accounts, readFirst, owner);
      OwnEntries(w, deviceId, accounts, i);
    } else {
      OtherNode(w, deviceId, uri, version, accounts, readFirst, owner);
      NodesNotShared(w, deviceId, accounts, owner);
    }
  }

  /** Storing keeps both indexes in agreement, as written and in the variant. */
  lemma StoreAgrees(w: World, deviceId: string, uri: string, version: string, accounts: seq<PushAccount>,
                    readFirst: bool)
    requires Agree(w) && Ready(w, deviceId, accounts)
    ensures Agree(Store(w, deviceId, uri, version, accounts, readFirst))
  {
    hide Store, AccountNodes, DeviceNodes, OwnedBy, Grounded, EntriesFor, LastOfId, Ready;
    var r := Store(w, deviceId, uri, version, accounts, readFirst);
    forall a, b | a in r.nodes && b in r.nodes && r.nodes[a] == r.nodes[b] ensures a == b {
      StoreInjective(w, deviceId, uri, version, accounts, readFirst, a, b);
    }
    forall owner | owner in r.nodes ensures r.nodes[owner] in r.lists && OwnedBy(r.lists[r.nodes[owner]], owner) {
      StoreOwned(w, deviceId, uri, version, accounts, readFirst, owner);
    }
    forall node | node in r.lists ensures r.lists[node] != [] && Grounded(r.devices.Keys, r.lists[node]) {
      StoreGrounds(w, deviceId, uri, version, accounts, readFirst, node);
    }
    StoreExactly(w, deviceId, uri, version, accounts, readFirst);
  }

  lemma StoreGrounds(w: World, deviceId: string, uri: string, version: string, accounts: seq<PushAccount>,
                     readFirst: bool,
                     node: string)
    requires Agree(w) && node in Store(w, deviceId, uri, version, accounts, readFirst).lists
    ensures var r := Store(w, deviceId, uri, version, accounts, readFirst);
            r.lists[node] != [] && Grounded(r.devices.Keys, r.lists[node])
  {
    StoreKeepsDevices(w, deviceId, uri, version, accounts, readFirst);
    hide Store, DeviceNodes, OwnedBy, EntriesFor;
    StoredList(w, deviceId, uri, version, accounts, readFirst, node);
    EntriesAreOf(deviceId, accounts, node);
    if node in AccountNodes(accounts) {
      var i: nat :| i < |accounts| && accounts[i].node == node;
      EntriesForAt(deviceId, accounts, i);
    }
  }

  lemma StoreKeepsDevices(w: World, deviceId: string, uri: string, version: string, accounts: seq<PushAccount>,
                          readFirst: bool)
    ensures Store(w, deviceId, uri, version, accounts, readFirst).devices.Keys == w.devices.Keys + {deviceId}
  {
  }

  lemma NodeKnown(accounts: seq<PushAccount>, i: nat)
    requires i < |accounts|
    ensures accounts[i].node in AccountNodes(accounts)
  {
  }

  lemma NodeOf(accounts: seq<PushAccount>, node: string)
    ensures node in AccountNodes(accounts) <==> exists i: nat | i < |accounts| :: accounts[i].node == node
  {
  }

  // ---------- Accounts named more than once ----------

  /** What is set up: every node but the old ones, and of those the ones that are named again. */
  lemma {:induction false} AddedExactly(accounts: seq<PushAccount>, before: set<string>, node: string)
    ensures node in Added(accounts, before)
            <==> node in AccountNodes(accounts) && (node in before ==> NamedTwice(accounts, node))
  {
    hide AccountNodes, NamedTwice;
    if accounts == [] {
      NoAccountNodes();
    } else {
      AddedExactly(accounts[..|accounts| - 1], before, node);
      LastNode(accounts);
      NamedAgain(accounts, node);
    }
  }

  predicate NamedTwice(accounts: seq<PushAccount>, node: string) {
    exists i, j | 0 <= i < j < |accounts| :: accounts[i].node == node && accounts[j].node == node
  }

  lemma NamedAgain(accounts: seq<PushAccount>, node: string)
    requires accounts != []
    ensures var front, last := accounts[..|accounts| - 1], accounts[|accounts| - 1];
            NamedTwice(accounts, node) <==>
            NamedTwice(front, node) || (node == last.node && node in AccountNodes(front))
    ensures NamedTwice(accounts, node) ==> node in AccountNodes(accounts)
    ensures var front := accounts[..|accounts| - 1]; NamedTwice(front, node) ==> node in AccountNodes(front)
  {
    var front, last := accounts[..|accounts| - 1], accounts[|accounts| - 1];
    if NamedTwice(front, node) {
      var i, j :| 0 <= i < j < |front| && front[i].node == node && front[j].node == node;
      assert accounts[i].node == node && accounts[j].node == node;
    } else if node == last.node && node in AccountNodes(front) {
      var i: nat :| i < |front| && front[i].node == node;
      assert accounts[i].node == node && accounts[|accounts| - 1].node == node;
    }
  }

  lemma AddedIsNew(accounts: seq<PushAccount>, before: set<string>)
    ensures AccountNodes(accounts) - before <= Added(accounts, before) <= AccountNodes(accounts)
  {
    hide AccountNodes, Added;
    forall node ensures node in AccountNodes(accounts) - before ==> node in Added(accounts, before)
                ensures node in Added(accounts, before) ==> node in AccountNodes(accounts)
    {
      AddedExactly(accounts, before, node);
    }
  }

  /** The nodes of the last accounts of all ids. */
  function LastNodes(accounts: seq<PushAccount>): set<string> {
    set i: nat | i < |accounts| && LastOfId(accounts, i) :: accounts[i].node
  }

  /** What is named more than once is routable. */
  predicate NamedSafely(w: World, deviceId: string, ids: seq<string>) {
    forall i, j | 0 <= i < j < |ids| && ids[i] == ids[j] :: Routable(w, Owner(deviceId, ids[i]))
  }

  lemma LastNodesAreAll(w: World, deviceId: string, accounts: seq<PushAccount>)
    requires Ready(w, deviceId, accounts)
    ensures LastNodes(accounts) <= AccountNodes(accounts)
    ensures AccountNodes(accounts) <= LastNodes(accounts) <==> NamedSafely(w, deviceId, Ids(accounts))
  {
    hide Routable;
    var ids := Ids(accounts);
    if NamedSafely(w, deviceId, ids) {
      forall i: nat | i < |accounts| ensures accounts[i].node in LastNodes(accounts) {
        assert ids[i] == accounts[i].accountId;
        var j := IndexOf(deviceId, accounts, Owned(deviceId, accounts, i));
        assert ids[i] == ids[j];
      }
    } else {
      var i, j :| 0 <= i < j < |ids| && ids[i] == ids[j] && !Routable(w, Owner(deviceId, ids[i]));
      assert accounts[i].accountId == accounts[j].accountId;
      assert accounts[i].node !in LastNodes(accounts);
    }
  }

  /** The current nodes after storing: those of the other devices, and those stored last. */
  lemma StoreNodes(w: World, deviceId: string, uri: string, version: string, accounts: seq<PushAccount>,
                   readFirst: bool)
    requires Agree(w) && Ready(w, deviceId, accounts)
    ensures CurrentNodes(Store(w, deviceId, uri, version, accounts, readFirst))
            == CurrentNodes(w) - DeviceNodes(w, deviceId) + LastNodes(accounts)
  {
    hide Store, AccountNodes, Agree, Ready, LastOfId;
    var r := Store(w, deviceId, uri, version, accounts, readFirst);
    forall owner | owner in r.nodes
      ensures if owner.deviceId == deviceId then r.nodes[owner] in LastNodes(accounts)
              else r.nodes[owner] in CurrentNodes(w) && r.nodes[owner] !in DeviceNodes(w, deviceId)
    {
      if owner.deviceId == deviceId {
        var i := StoredNode(w, deviceId, uri, version, accounts, readFirst, owner);
      } else {
        OtherNode(w, deviceId, uri, version, accounts, readFirst, owner);
        NodesNotShared(w, deviceId, accounts, owner);
      }
    }
    forall node | node in CurrentNodes(w) && node !in DeviceNodes(w, deviceId) ensures node in CurrentNodes(r) {
      var owner :| owner in w.nodes && w.nodes[owner] == node;
      OtherNode(w, deviceId, uri, version, accounts, readFirst, owner);
    }
    forall node | node in LastNodes(accounts) ensures node in CurrentNodes(r) {
      var i: nat :| i < |accounts| && LastOfId(accounts, i) && accounts[i].node == node;
      StoredLast(w, deviceId, uri, version, accounts, readFirst, i);
    }
  }

  lemma StoredLast(w: World, deviceId: string, uri: string, version: string, accounts: seq<PushAccount>,
                   readFirst: bool, i: nat)
    requires Agree(w) && i < |accounts| && LastOfId(accounts, i)
    ensures var r := Store(w, deviceId, uri, version, accounts, readFirst);
            Owned(deviceId, accounts, i) in r.nodes && r.nodes[Owned(deviceId, accounts, i)] == accounts[i].node
  {
    hide Store, AccountNodes, DeviceNodes, Agree, EntriesFor, Ids, LastOfId;
    StoreExactly(w, deviceId, uri, version, accounts, readFirst);
  }

  /** No ready account has the node of another device. */
  lemma ReadyNodesAreOwn(w: World, deviceId: string, accounts: seq<PushAccount>)
    requires Agree(w) && Ready(w, deviceId, accounts)
    ensures AccountNodes(accounts) * CurrentNodes(w) <= DeviceNodes(w, deviceId)
  {
    hide Routable, OwnedBy, Grounded;
    forall owner | owner in w.nodes && w.nodes[owner] in AccountNodes(accounts)
      ensures w.nodes[owner] in DeviceNodes(w, deviceId)
    {
      if owner.deviceId != deviceId {
        NodesNotShared(w, deviceId, accounts, owner);
      }
    }
  }

  /** Every node that an account list sets up or reuses is current afterwards, if and only if every account that is
      named more than once was routable. */
  lemma LeaksExactly(w: World, deviceId: string, uri: string, version: string, ids: seq<string>, tokens: seq<Token>,
                     connected: bool, readFirst: bool)
    requires Agree(w) && |ids| == |tokens| && New(w, tokens)
    ensures var accounts := LoadAll(w, deviceId, ids, tokens, connected);
            AccountNodes(accounts) <= CurrentNodes(Store(w, deviceId, uri, version, accounts, readFirst))
            <==> NamedSafely(w, deviceId, ids)
  {
    hide Store, LoadAll, AccountNodes, DeviceNodes, CurrentNodes, LastNodes, Agree, Ready, New, NamedSafely;
    var accounts := LoadAll(w, deviceId, ids, tokens, connected);
    LoadAllIsReady(w, deviceId, ids, tokens, connected);
    LastNodesAreAll(w, deviceId, accounts);
    StoreNodes(w, deviceId, uri, version, accounts, readFirst);
    ReadyNodesAreOwn(w, deviceId, accounts);
  }

  /** While connected, an account list keeps the live nodes the current ones, under exactly the same condition. */
  lemma LiveStaysCurrent(s: Server, deviceId: string, version: string, ids: seq<string>, tokens: seq<Token>,
                         readFirst: bool)
    requires Agree(s.world) && s.live == CurrentNodes(s.world)
    requires deviceId in s.world.devices && |ids| == |tokens| && New(s.world, tokens)
    ensures var r := TakeAccounts(s, deviceId, version, ids, tokens, true, readFirst);
            r.live == CurrentNodes(r.world) <==> NamedSafely(s.world, deviceId, ids)
  {
    hide Store, LoadAll, AccountNodes, DeviceNodes, CurrentNodes, LastNodes, Added, Agree, Ready, New, NamedSafely;
    var w, accounts := s.world, LoadAll(s.world, deviceId, ids, tokens, true);
    LoadAllIsReady(w, deviceId, ids, tokens, true);
    LastNodesAreAll(w, deviceId, accounts);
    StoreNodes(w, deviceId, w.devices[deviceId].uri, version, accounts, readFirst);
    ReadyNodesAreOwn(w, deviceId, accounts);
    AddedIsNew(accounts, DeviceNodes(w, deviceId));
    DeviceNodesAreCurrent(w, deviceId);
  }

  /** What leaks then: every earlier one of the new nodes of an account is current for nobody and resolves all the
      same. */
  lemma NamedTwiceLeaks(w: World, deviceId: string, uri: string, version: string, ids: seq<string>, tokens: seq<Token>,
                        connected: bool, i: nat, j: nat)
    requires Agree(w) && |ids| == |tokens| && New(w, tokens)
    requires i < j < |ids| && ids[i] == ids[j] && !Routable(w, Owner(deviceId, ids[i]))
    ensures var accounts := LoadAll(w, deviceId, ids, tokens, connected);
            var r := Store(w, deviceId, uri, version, accounts, false);
            && tokens[i].node in AccountNodes(accounts)
            && tokens[i].node !in CurrentNodes(r) && Resolves(r, tokens[i].node)
  {
    hide Store, AccountNodes, DeviceNodes, CurrentNodes, Agree, EntriesFor, LastNodes, LastOfId, Routable, New;
    var accounts := LoadAll(w, deviceId, ids, tokens, connected);
    LoadAllIsReady(w, deviceId, ids, tokens, connected);
    assert accounts[i].accountId == accounts[j].accountId && accounts[i].node == tokens[i].node;
    FirstIsNew(w, deviceId, accounts, i, j);
    StoredList(w, deviceId, uri, version, accounts, false, tokens[i].node);
    NodeKnown(accounts, i);
    StoreNodes(w, deviceId, uri, version, accounts, false);
    ListsKnown(w);
  }

  lemma FirstIsNew(w: World, deviceId: string, accounts: seq<PushAccount>, i: nat, j: nat)
    requires Ready(w, deviceId, accounts) && i < j < |accounts| && accounts[i].accountId == accounts[j].accountId
    requires !Routable(w, Owned(deviceId, accounts, i))
    ensures accounts[i].node !in w.lists && accounts[i].node !in LastNodes(accounts)
    ensures |EntriesFor(deviceId, accounts, accounts[i].node)| == 1
  {
    hide Routable, EntriesFor;
    EntriesForAt(deviceId, accounts, i);
  }

  lemma ListsKnown(w: World)
    requires Agree(w)
    ensures forall node | node in CurrentNodes(w) :: node in w.lists
  {
  }

  /** Accounts named once each are named safely. */
  lemma OnceIsSafe(w: World, deviceId: string, ids: seq<string>)
    requires Distinct(ids)
    ensures NamedSafely(w, deviceId, ids)
  {
  }

  // ---------- What becomes of the lookups ----------

  /** As written, a stored account is routable exactly when it was not before: a reused node gets a second
      entry, and only a new node starts with one. In the variant every account that is stored once is routable. */
  lemma StoreToggles(w: World, deviceId: string, uri: string, version: string, accounts: seq<PushAccount>,
                     readFirst: bool, i: nat)
    requires Agree(w) && Ready(w, deviceId, accounts) && i < |accounts|
    ensures var r, owner := Store(w, deviceId, uri, version, accounts, readFirst), Owned(deviceId, accounts, i);
            && (!readFirst ==> (Routable(r, owner) <==> !Routable(w, owner)))
            && (readFirst && Distinct(Ids(accounts)) ==> Routable(r, owner))
  {
    hide Store, AccountNodes, DeviceNodes, EntriesFor, Distinct, OwnedBy, Grounded, Ids, LastOfId;
    var owner := Owned(deviceId, accounts, i);
    IdKnown(accounts, i);
    StoreExactly(w, deviceId, uri, version, accounts, readFirst);
    var k := StoredNode(w, deviceId, uri, version, accounts, readFirst, owner);
    StoredList(w, deviceId, uri, version, accounts, readFirst, accounts[k].node);
    EntriesForAt(deviceId, accounts, k);
    if Routable(w, owner) {
      DeviceNodeKnown(w, owner);
    }
    if Distinct(Ids(accounts)) {
      DistinctNodesToo(w, deviceId, accounts);
    }
  }

  lemma IdKnown(accounts: seq<PushAccount>, i: nat)
    requires i < |accounts|
    ensures accounts[i].accountId in Ids(accounts)
  {
    assert Ids(accounts)[i] == accounts[i].accountId;
  }

  lemma DistinctNodesToo(w: World, deviceId: string, accounts: seq<PushAccount>)
    requires Ready(w, deviceId, accounts) && Distinct(Ids(accounts))
    ensures DistinctNodes(accounts)
  {
    forall i, j | 0 <= i < j < |accounts| ensures accounts[i].node != accounts[j].node {
      assert Ids(accounts)[i] != Ids(accounts)[j];
    }
  }

  /** Other devices keep their registration, their nodes and what those resolve to. */
  lemma StoreIsolates(w: World, deviceId: string, uri: string, version: string, accounts: seq<PushAccount>,
                      readFirst: bool, owner: Owner)
    requires Agree(w) && Ready(w, deviceId, accounts) && owner.deviceId != deviceId
    ensures var r := Store(w, deviceId, uri, version, accounts, readFirst);
            && (owner.deviceId in r.devices <==> owner.deviceId in w.devices)
            && (owner.deviceId in w.devices ==> r.devices[owner.deviceId] == w.devices[owner.deviceId])
            && (owner in r.nodes <==> owner in w.nodes)
            && (owner in w.nodes ==> r.nodes[owner] == w.nodes[owner] && w.nodes[owner] in r.lists
                                     && r.lists[w.nodes[owner]] == w.lists[w.nodes[owner]])
            && (Routable(r, owner) <==> Routable(w, owner))
  {
    hide Store, AccountNodes, DeviceNodes;
    StoreExactly(w, deviceId, uri, version, accounts, readFirst);
    if owner in w.nodes {
      NodesNotShared(w, deviceId, accounts, owner);
    }
  }

  /** As written no list is ever shortened, and a dropped node resolves exactly when it did before. */
  lemma StoreKeepsLists(w: World, deviceId: string, uri: string, version: string, accounts: seq<PushAccount>,
                        node: string)
    requires Agree(w) && Ready(w, deviceId, accounts) && node in w.lists
    ensures var r := Store(w, deviceId, uri, version, accounts, false);
            && node in r.lists && w.lists[node] <= r.lists[node]
            && (node in DeviceNodes(w, deviceId) && node !in AccountNodes(accounts)
                ==> node !in CurrentNodes(r) && (Resolves(r, node) <==> Resolves(w, node)))
  {
    hide Store, AccountNodes;
    var r := Store(w, deviceId, uri, version, accounts, false);
    StoreExactly(w, deviceId, uri, version, accounts, false);
    NodeOf(accounts, node);
    if node in DeviceNodes(w, deviceId) && node !in AccountNodes(accounts) {
      forall owner | owner in r.nodes ensures r.nodes[owner] != node {
        if owner.deviceId == deviceId {
          var i := IndexOf(deviceId, accounts, owner);
        } else {
          NodesNotShared(w, deviceId, accounts, owner);
        }
      }
    }
  }

  /** In the variant, clean lists stay clean. */
  lemma StoreStaysClean(w: World, deviceId: string, uri: string, version: string, accounts: seq<PushAccount>)
    requires Agree(w) && Clean(w) && Ready(w, deviceId, accounts) && Distinct(Ids(accounts))
    ensures Clean(Store(w, deviceId, uri, version, accounts, true))
  {
    hide Store, AccountNodes, DeviceNodes, CurrentNodes, Agree, Ready, Ids, Distinct, EntriesFor, LastNodes;
    var r := Store(w, deviceId, uri, version, accounts, true);
    StoreNodes(w, deviceId, uri, version, accounts, true);
    DeviceNodesAreCurrent(w, deviceId);
    OnceIsSafe(w, deviceId, Ids(accounts));
    LastNodesAreAll(w, deviceId, accounts);
    forall node
      ensures node in r.lists <==> node in CurrentNodes(w) - DeviceNodes(w, deviceId) + AccountNodes(accounts)
      ensures node in r.lists ==> |r.lists[node]| == 1
    {
      StoredList(w, deviceId, uri, version, accounts, true, node);
      if node in AccountNodes(accounts) {
        NewListIsClean(w, deviceId, accounts, node);
      }
    }
  }

  /** Accounts that are named once bring one entry each, and not to the list of another device. */
  lemma NewListIsClean(w: World, deviceId: string, accounts: seq<PushAccount>, node: string)
    requires Agree(w) && Clean(w) && Ready(w, deviceId, accounts) && Distinct(Ids(accounts))
    requires node in AccountNodes(accounts)
    ensures |EntriesFor(deviceId, accounts, node)| == 1
    ensures node in w.lists ==> node in DeviceNodes(w, deviceId)
  {
    ReadyNodesAreOwn(w, deviceId, accounts);
    DistinctNodesToo(w, deviceId, accounts);
    hide Ready, Agree, Distinct, Ids, DeviceNodes, CurrentNodes, EntriesFor;
    var i: nat :| i < |accounts| && accounts[i].node == node;
    EntriesForAt(deviceId, accounts, i);
  }

  lemma DeviceNodesAreCurrent(w: World, deviceId: string)
    ensures DeviceNodes(w, deviceId) <= CurrentNodes(w)
  {
  }

  lemma DeviceNodeKnown(w: World, owner: Owner)
    requires owner in w.nodes
    ensures w.nodes[owner] in DeviceNodes(w, owner.deviceId)
  {
  }

  /** Announcing a URI keeps the indexes in agreement. */
  lemma UriAgrees(w: World, deviceId: string, uri: string)
    requires Agree(w)
    ensures Agree(StoreUri(w, deviceId, uri))
  {
    hide OwnedBy;
  }

  // ---------- One request ----------

  /** No account is named more than once. */
  predicate Once(request: Request) {
    request.SetAccounts? ==> Distinct(request.ids)
  }

  lemma StepKeepsInv(s: Server, request: Request, readFirst: bool)
    requires Inv(s) && Possible(s, request)
    ensures Inv(Step(s, request, readFirst))
    ensures readFirst && Clean(s.world) && Once(request) ==> Clean(Step(s, request, readFirst).world)
  {
    hide Store, AccountNodes, DeviceNodes, CurrentNodes, LoadAll, LastNodes, Added, Agree, Ready, New, Distinct;
    match request
    case SetUri(deviceId, uri) =>
      UriAgrees(s.world, deviceId, uri);
      SameNodes(s.world, StoreUri(s.world, deviceId, uri));
    case SetAccounts(deviceId, version, ids, tokens) =>
      if deviceId in s.world.devices {
        var accounts := LoadAll(s.world, deviceId, ids, tokens, true);
        var uri := s.world.devices[deviceId].uri;
        LoadAllIsReady(s.world, deviceId, ids, tokens, true);
        StoreAgrees(s.world, deviceId, uri, version, accounts, readFirst);
        StoreNodes(s.world, deviceId, uri, version, accounts, readFirst);
        AddedIsNew(accounts, DeviceNodes(s.world, deviceId));
        LastNodesAreAll(s.world, deviceId, accounts);
        DeviceNodesAreCurrent(s.world, deviceId);
        if readFirst && Clean(s.world) && Once(request) {
          StoreStaysClean(s.world, deviceId, uri, version, accounts);
        }
      }
  }

  /** The request leaves no node live that no account has. */
  predicate Tidy(w: World, request: Request) {
    request.SetAccounts? && request.deviceId in w.devices ==> NamedSafely(w, request.deviceId, request.ids)
  }

  /** A node that is live and no account's stays so. */
  lemma StepKeepsLeak(s: Server, request: Request, readFirst: bool, node: string)
    requires Inv(s) && Possible(s, request) && node in s.live && node !in CurrentNodes(s.world)
    ensures var r := Step(s, request, readFirst); node in r.live && node !in CurrentNodes(r.world)
  {
    hide Store, LoadAll, AccountNodes, DeviceNodes, CurrentNodes, LastNodes, Added, Agree, Ready;
    match request
    case SetUri(deviceId, uri) => SameNodes(s.world, StoreUri(s.world, deviceId, uri));
    case SetAccounts(deviceId, version, ids, tokens) =>
      if deviceId in s.world.devices {
        var accounts := LoadAll(s.world, deviceId, ids, tokens, true);
        LoadAllIsReady(s.world, deviceId, ids, tokens, true);
        StoreNodes(s.world, deviceId, s.world.devices[deviceId].uri, version, accounts, readFirst);
        LastNodesAreAll(s.world, deviceId, accounts);
        if node in AccountNodes(accounts) {
          LoadedNodes(s.world, deviceId, ids, tokens, true, node);
        }
        DeviceNodesAreCurrent(s.world, deviceId);
      }
  }

  lemma LoadedNodes(w: World, deviceId: string, ids: seq<string>, tokens: seq<Token>, connected: bool, node: string)
    requires |ids| == |tokens| && node in AccountNodes(LoadAll(w, deviceId, ids, tokens, connected))
    ensures node in CurrentNodes(w) || exists i | 0 <= i < |tokens| :: tokens[i].node == node
  {
  }

  lemma StepTidy(s: Server, request: Request, readFirst: bool)
    requires Inv(s) && Possible(s, request)
    ensures var r := Step(s, request, readFirst);
            r.live == CurrentNodes(r.world) <==> s.live == CurrentNodes(s.world) && Tidy(s.world, request)
  {
    hide Store, LoadAll, AccountNodes, DeviceNodes, CurrentNodes, LastNodes, Added, Agree, NamedSafely, New;
    if s.live != CurrentNodes(s.world) {
      var node :| node in s.live && node !in CurrentNodes(s.world);
      StepKeepsLeak(s, request, readFirst, node);
    } else {
      match request
      case SetUri(deviceId, uri) => SameNodes(s.world, StoreUri(s.world, deviceId, uri));
      case SetAccounts(deviceId, version, ids, tokens) =>
        if deviceId in s.world.devices {
          LiveStaysCurrent(s, deviceId, version, ids, tokens, readFirst);
        }
    }
  }

  lemma SameNodes(a: World, b: World)
    requires a.nodes == b.nodes
    ensures CurrentNodes(a) == CurrentNodes(b)
  {
  }

  // ---------- Runs ----------

  const START := Server(EMPTY, {})

  /** A run in which every request is possible when it arrives. */
  ghost predicate PossibleRun(requests: seq<Request>, readFirst: bool)
    decreases |requests|, 0
  {
    requests == [] ||
    var before := requests[..|requests| - 1];
    PossibleRun(before, readFirst) && Possible(Run(before, readFirst), requests[|requests| - 1])
  }

  /** The server after a run from an empty store. */
  ghost function Run(requests: seq<Request>, readFirst: bool): Server
    requires PossibleRun(requests, readFirst)
    decreases |requests|, 1
  {
    if requests == [] then START
    else Step(Run(requests[..|requests| - 1], readFirst), requests[|requests| - 1], readFirst)
  }

  /** After every run the two indexes agree and every current node is live; in the variant, every list is the single
      entry of a current node when no request names an account twice. */
  lemma {:induction false} RunKeepsInv(requests: seq<Request>, readFirst: bool)
    requires PossibleRun(requests, readFirst)
    ensures Inv(Run(requests, readFirst))
    ensures readFirst && AllOnce(requests) ==> Clean(Run(requests, readFirst).world)
  {
    hide Step, Possible, Once, Inv, Clean;
    if requests == [] {
      StartIsInOrder();
    } else {
      var before := requests[..|requests| - 1];
      RunKeepsInv(before, readFirst);
      StepKeepsInv(Run(before, readFirst), requests[|requests| - 1], readFirst);
    }
  }

  lemma StartIsInOrder()
    ensures Inv(START) && Clean(START.world) && START.live == CurrentNodes(START.world)
  {
  }

  predicate AllOnce(requests: seq<Request>) {
    forall request | request in requests :: Once(request)
  }

  ghost predicate AllTidy(requests: seq<Request>, readFirst: bool)
    requires PossibleRun(requests, readFirst)
    decreases |requests|
  {
    requests == [] ||
    var before := requests[..|requests| - 1];
    AllTidy(before, readFirst) && Tidy(Run(before, readFirst).world, requests[|requests| - 1])
  }

  /** After a run the live PubSub nodes are the current nodes of the devices if and only if every account that an
      accepted list named more than once was routable when the list came; what leaked once stays. */
  lemma {:induction false} RunStaysTidy(requests: seq<Request>, readFirst: bool)
    requires PossibleRun(requests, readFirst)
    ensures var s := Run(requests, readFirst);
            s.live == CurrentNodes(s.world) <==> AllTidy(requests, readFirst)
  {
    hide Step, Possible, Tidy, Inv, CurrentNodes;
    if requests == [] {
      StartIsInOrder();
    } else {
      var before := requests[..|requests| - 1];
      RunStaysTidy(before, readFirst);
      RunKeepsInv(before, readFirst);
      StepTidy(Run(before, readFirst), requests[|requests| - 1], readFirst);
    }
  }

  lemma {:induction false} OnceIsTidy(requests: seq<Request>, readFirst: bool)
    requires PossibleRun(requests, readFirst) && AllOnce(requests)
    ensures AllTidy(requests, readFirst)
    decreases |requests|
  {
    if requests != [] {
      var before, last := requests[..|requests| - 1], requests[|requests| - 1];
      OnceIsTidy(before, readFirst);
      assert Once(last);
      if last.SetAccounts? {
        OnceIsSafe(Run(before, readFirst).world, last.deviceId, last.ids);
      }
    }
  }

  /** A run written out: the server before each request and after the last. */
  ghost predicate Trace(states: seq<Server>, requests: seq<Request>, readFirst: bool) {
    && |states| == |requests| + 1 && states[0] == START
    && forall i | 0 <= i < |requests| ::
         Possible(states[i], requests[i]) && states[i + 1] == Step(states[i], requests[i], readFirst)
  }

  lemma {:induction false} RunAlong(states: seq<Server>, requests: seq<Request>, readFirst: bool)
    requires Trace(states, requests, readFirst)
    ensures PossibleRun(requests, readFirst) && Run(requests, readFirst) == states[|requests|]
    decreases |requests|
  {
    hide Possible, Step;
    if requests != [] {
      RunAlong(states[..|requests|], requests[..|requests| - 1], readFirst);
    }
  }

  /** The URI a device last announced. */
  function LastUri(requests: seq<Request>, deviceId: string): Option<string> {
    if requests == [] then None
    else
      match requests[|requests| - 1]
      case SetUri(d, uri) => if d == deviceId then Some(uri) else LastUri(requests[..|requests| - 1], deviceId)
      case SetAccounts(_, _, _, _) => LastUri(requests[..|requests| - 1], deviceId)
  }

  /** How many accepted account lists of the device in a row, up to the last, named the account. */
  function Streak(requests: seq<Request>, owner: Owner): nat {
    if requests == [] then 0
    else
      var before := requests[..|requests| - 1];
      match requests[|requests| - 1]
      case SetUri(_, _) => Streak(before, owner)
      case SetAccounts(d, _, ids, _) =>
        if d != owner.deviceId || LastUri(before, d).None? then Streak(before, owner)
        else if owner.accountId in ids then Streak(before, owner) + 1
        else 0
  }

  /** The accounts of the last accepted list of a device. */
  function LastIds(requests: seq<Request>, deviceId: string): seq<string> {
    if requests == [] then []
    else
      var before := requests[..|requests| - 1];
      match requests[|requests| - 1]
      case SetUri(_, _) => LastIds(before, deviceId)
      case SetAccounts(d, _, ids, _) =>
        if d != deviceId || LastUri(before, d).None? then LastIds(before, deviceId) else ids
  }

  /** The version of the last accepted list of a device. */
  function LastVersion(requests: seq<Request>, deviceId: string): Option<string> {
    if requests == [] then None
    else
      var before := requests[..|requests| - 1];
      match requests[|requests| - 1]
      case SetUri(_, _) => LastVersion(before, deviceId)
      case SetAccounts(d, version, _, _) =>
        if d != deviceId || LastUri(before, d).None? then LastVersion(before, deviceId) else Some(version)
  }

  /** After any run over any devices, a device is known exactly when it announced a URI, and then by the last
      one; and its version and accounts are those of its last accepted list, whatever other devices did. */
  lemma {:induction false} RunRemembers(requests: seq<Request>, readFirst: bool, deviceId: string)
    requires PossibleRun(requests, readFirst)
    ensures var w := Run(requests, readFirst).world;
            && (deviceId in w.devices <==> LastUri(requests, deviceId).Some?)
            && (deviceId in w.devices ==> w.devices[deviceId].uri == LastUri(requests, deviceId).value)
            && (deviceId in w.devices ==> w.devices[deviceId].version == LastVersion(requests, deviceId))
            && (deviceId !in w.devices ==> LastVersion(requests, deviceId) == None)
            && OldIds(w, deviceId) == LastIds(requests, deviceId)
  {
    if requests != [] {
      var before, request := requests[..|requests| - 1], requests[|requests| - 1];
      RunRemembers(before, readFirst, deviceId);
      RunKeepsInv(before, readFirst);
      var s := Run(before, readFirst);
      match request
      case SetUri(_, _) =>
      case SetAccounts(d, version, ids, tokens) =>
        RunRemembers(before, readFirst, d);
        if d in s.world.devices {
          LoadAllIsReady(s.world, d, ids, tokens, true);
        }
    }
  }

  /** After any run, an account has a node exactly when its streak is positive. As written its node is
      routable exactly when the streak is odd; in the variant, when no request names an account twice, whenever there
      is a node. */
  lemma {:induction false} RunRoutes(requests: seq<Request>, readFirst: bool, owner: Owner)
    requires PossibleRun(requests, readFirst) && (readFirst ==> AllOnce(requests))
    ensures var w := Run(requests, readFirst).world;
            && (owner in w.nodes <==> Streak(requests, owner) > 0)
            && (Routable(w, owner)
                <==> if readFirst then Streak(requests, owner) > 0 else Streak(requests, owner) % 2 == 1)
  {
    hide Routable, Inv, Agree, Clean, CurrentNodes, OldIds, LastIds, Distinct, Step, Possible;
    if requests == [] {
      assert START.world.nodes == map[];
      NotRoutable(START.world, owner);
    } else {
      var before, request := requests[..|requests| - 1], requests[|requests| - 1];
      RunRoutes(before, readFirst, owner);
      RunKeepsInv(before, readFirst);
      if request.SetAccounts? {
        RunRemembers(before, readFirst, request.deviceId);
      }
      StepRoutes(Run(before, readFirst), request, readFirst, owner);
    }
  }

  /** Every request is one account list of the device. */
  predicate Repeats(requests: seq<Request>, deviceId: string, ids: seq<string>) {
    forall i | 0 <= i < |requests| ::
      requests[i].SetAccounts? && requests[i].deviceId == deviceId && requests[i].ids == ids
  }

  lemma {:induction false} StreakOfRepeats(before: seq<Request>, repeats: seq<Request>, deviceId: string,
                                           ids: seq<string>, id: string)
    requires Repeats(repeats, deviceId, ids) && id in ids && LastUri(before, deviceId).Some?
    ensures LastUri(before + repeats, deviceId) == LastUri(before, deviceId)
    ensures Streak(before + repeats, Owner(deviceId, id)) == Streak(before, Owner(deviceId, id)) + |repeats|
  {
    if repeats == [] {
      assert before + repeats == before;
    } else {
      var front := repeats[..|repeats| - 1];
      StreakOfRepeats(before, front, deviceId, ids, id);
      assert (before + repeats)[..|before + repeats| - 1] == before + front;
    }
  }

  /** A known device that sends one account list n times, for accounts it did not have: as written each of
      them is routable exactly when n is odd. */
  lemma RepeatedList(before: seq<Request>, repeats: seq<Request>, deviceId: string, ids: seq<string>)
    requires PossibleRun(before + repeats, false) && PossibleRun(before, false)
    requires Repeats(repeats, deviceId, ids) && deviceId in Run(before, false).world.devices
    requires forall id | id in ids :: Owner(deviceId, id) !in Run(before, false).world.nodes
    ensures forall id | id in ids ::
              Routable(Run(before + repeats, false).world, Owner(deviceId, id)) <==> |repeats| % 2 == 1
  {
    hide Run, Routable, Streak, LastUri, PossibleRun;
    RunRemembers(before, false, deviceId);
    forall id | id in ids
      ensures Routable(Run(before + repeats, false).world, Owner(deviceId, id)) <==> |repeats| % 2 == 1
    {
      RunRoutes(before, false, Owner(deviceId, id));
      StreakOfRepeats(before, repeats, deviceId, ids, id);
      RunRoutes(before + repeats, false, Owner(deviceId, id));
    }
  }

  /** As written, whether a list leaves a leak can be told from the requests before it. */
  lemma TidyByStreak(before: seq<Request>, request: Request)
    requires PossibleRun(before, false) && request.SetAccounts?
    ensures Tidy(Run(before, false).world, request)
            <==> (LastUri(before, request.deviceId).Some? ==>
                    forall i, j | 0 <= i < j < |request.ids| && request.ids[i] == request.ids[j] ::
                      Streak(before, Owner(request.deviceId, request.ids[i])) % 2 == 1)
  {
    hide Run, PossibleRun, Streak, LastUri, LastVersion, LastIds, Routable;
    RunRemembers(before, false, request.deviceId);
    forall id ensures Routable(Run(before, false).world, Owner(request.deviceId, id))
                      <==> Streak(before, Owner(request.deviceId, id)) % 2 == 1
    {
      RunRoutes(before, false, Owner(request.deviceId, id));
    }
  }

  lemma NotRoutable(w: World, owner: Owner)
    requires owner !in w.nodes
    ensures !Routable(w, owner)
  {
  }

  /** Announcing a URI changes no node and nothing a node resolves to. */
  lemma UriKeepsRoutes(w: World, deviceId: string, uri: string, owner: Owner)
    ensures var r := StoreUri(w, deviceId, uri);
            && r.nodes == w.nodes && r.lists == w.lists
            && (Routable(r, owner) <==> Routable(w, owner))
            && OldIds(r, deviceId) == OldIds(w, deviceId)
            && (deviceId in w.devices ==> r.devices[deviceId].version == w.devices[deviceId].version)
  {
  }

  lemma StepRoutes(s: Server, request: Request, readFirst: bool, owner: Owner)
    requires Inv(s) && Possible(s, request) && (readFirst ==> Once(request))
    ensures var w := Step(s, request, readFirst).world;
            if request.SetAccounts? && request.deviceId == owner.deviceId && request.deviceId in s.world.devices then
              && (owner in w.nodes <==> owner.accountId in request.ids)
              && (Routable(w, owner) <==> owner.accountId in request.ids && (readFirst || !Routable(s.world, owner)))
            else
              && (owner in w.nodes <==> owner in s.world.nodes)
              && (Routable(w, owner) <==> Routable(s.world, owner))
  {
    hide Store, LoadAll, AccountNodes, Agree, New, Ready, CurrentNodes, DeviceNodes, Added, Distinct, LastOfId;
    match request
    case SetUri(d, uri) =>
      UriKeepsRoutes(s.world, d, uri, owner);
    case SetAccounts(d, version, ids, tokens) =>
      if d in s.world.devices {
        var accounts, uri := LoadAll(s.world, d, ids, tokens, true), s.world.devices[d].uri;
        LoadAllIsReady(s.world, d, ids, tokens, true);
        if owner.deviceId != d {
          StoreIsolates(s.world, d, uri, version, accounts, readFirst, owner);
        } else {
          StoreHas(s.world, d, uri, version, accounts, readFirst, owner);
          if owner.accountId in ids {
            var i := IndexOf(d, accounts, owner);
            StoreToggles(s.world, d, uri, version, accounts, readFirst, i);
          }
        }
      }
  }

  lemma StoreHas(w: World, deviceId: string, uri: string, version: string, accounts: seq<PushAccount>, readFirst: bool,
                 owner: Owner)
    requires Agree(w) && owner.deviceId == deviceId
    ensures owner in Store(w, deviceId, uri, version, accounts, readFirst).nodes <==> owner.accountId in Ids(accounts)
  {
    hide Store, AccountNodes, DeviceNodes, Agree, EntriesFor, Ids, LastOfId;
    StoreExactly(w, deviceId, uri, version, accounts, readFirst);
  }

  /** As written, no request of any run shortens a node list. */
  lemma StepKeepsLists(s: Server, request: Request, node: string)
    requires Inv(s) && Possible(s, request) && node in s.world.lists
    ensures var w := Step(s, request, false).world; node in w.lists && s.world.lists[node] <= w.lists[node]
  {
    hide Store, LoadAll;
    match request
    case SetUri(_, _) =>
    case SetAccounts(deviceId, version, ids, tokens) =>
      if deviceId in s.world.devices {
        LoadAllIsReady(s.world, deviceId, ids, tokens, true);
        StoreKeepsLists(s.world, deviceId, s.world.devices[deviceId].uri, version,
                        LoadAll(s.world, deviceId, ids, tokens, true), node);
      }
  }

  // ---------- What becomes of dropped nodes ----------

  /** As written, a request changes no list of a node that no account has after it. */
  lemma StepKeepsDropped(s: Server, request: Request, node: string)
    requires Inv(s) && Possible(s, request)
    requires node in s.world.lists && node !in CurrentNodes(Step(s, request, false).world)
    ensures var w := Step(s, request, false).world; node in w.lists && w.lists[node] == s.world.lists[node]
  {
    hide Store, LoadAll, AccountNodes, DeviceNodes, CurrentNodes, LastNodes, Agree, New, Ready, Added;
    if request.SetAccounts? && request.deviceId in s.world.devices {
      var d, uri := request.deviceId, s.world.devices[request.deviceId].uri;
      var accounts := LoadAll(s.world, d, request.ids, request.tokens, true);
      LoadAllIsReady(s.world, d, request.ids, request.tokens, true);
      StoredList(s.world, d, uri, request.version, accounts, false, node);
      if node in AccountNodes(accounts) {
        KnownIsLast(s.world, d, accounts, node);
      }
      StoreNodes(s.world, d, uri, request.version, accounts, false);
    }
  }

  /** A known node among those of ready accounts is the one of the last account with its id. */
  lemma KnownIsLast(w: World, deviceId: string, accounts: seq<PushAccount>, node: string)
    requires Ready(w, deviceId, accounts) && node in AccountNodes(accounts) && node in w.lists
    ensures node in LastNodes(accounts)
  {
    hide Ids, Routable;
    var i: nat :| i < |accounts| && accounts[i].node == node;
    IdKnown(accounts, i);
    var j := IndexOf(deviceId, accounts, Owned(deviceId, accounts, i));
  }

  /** As written, a node that no account has keeps its list and is given to no account again. */
  lemma StepFreezesDropped(s: Server, request: Request, node: string)
    requires Inv(s) && Possible(s, request) && node in s.world.lists && node !in CurrentNodes(s.world)
    ensures var w := Step(s, request, false).world;
            node in w.lists && w.lists[node] == s.world.lists[node] && node !in CurrentNodes(w)
  {
    hide Store, LoadAll, AccountNodes, DeviceNodes, CurrentNodes, LastNodes, Agree, New, Ready, Added;
    match request
    case SetUri(deviceId, uri) =>
      SameNodes(s.world, StoreUri(s.world, deviceId, uri));
    case SetAccounts(deviceId, version, ids, tokens) =>
      if deviceId in s.world.devices {
        var accounts, uri := LoadAll(s.world, deviceId, ids, tokens, true), s.world.devices[deviceId].uri;
        LoadAllIsReady(s.world, deviceId, ids, tokens, true);
        ReadyAvoids(s.world, deviceId, accounts, node);
        LastNodesAreAll(s.world, deviceId, accounts);
        StoreNodes(s.world, deviceId, uri, version, accounts, false);
        StepKeepsDropped(s, request, node);
      }
  }

  /** Accounts that are ready have current or unknown nodes. */
  lemma ReadyAvoids(w: World, deviceId: string, accounts: seq<PushAccount>, node: string)
    requires Ready(w, deviceId, accounts) && node in w.lists && node !in CurrentNodes(w)
    ensures node !in AccountNodes(accounts)
  {
  }

  /** The node is a new one of an account that the list names again. */
  predicate Leaks(w: World, request: Request, node: string) {
    && request.SetAccounts? && |request.ids| == |request.tokens| && request.deviceId in w.devices
    && exists i, j | 0 <= i < j < |request.ids| ::
         && request.ids[i] == request.ids[j] && request.tokens[i].node == node
         && !Routable(w, Owner(request.deviceId, request.ids[i]))
  }

  /** The node resolves, and is no account's. */
  predicate Lingers(w: World, node: string) {
    node !in CurrentNodes(w) && Resolves(w, node)
  }

  lemma LeakLingers(s: Server, request: Request, node: string)
    requires Inv(s) && Possible(s, request) && Leaks(s.world, request, node)
    ensures Lingers(Step(s, request, false).world, node) && node !in s.world.lists
  {
    hide Store, LoadAll, AccountNodes, CurrentNodes, Agree, Routable, Resolves, Distinct, Added;
    var ids := request.ids;
    var i, j :| 0 <= i < j < |ids| && ids[i] == ids[j] && request.tokens[i].node == node
                && !Routable(s.world, Owner(request.deviceId, ids[i]));
    NamedTwiceLeaks(s.world, request.deviceId, s.world.devices[request.deviceId].uri, request.version, ids,
                    request.tokens, true, i, j);
  }

  /** A new list is that of a new node of an account; when the node is not current, the account is named again. */
  lemma NewLingersLeaks(s: Server, request: Request, node: string)
    requires Inv(s) && Possible(s, request) && node !in s.world.lists
    requires Lingers(Step(s, request, false).world, node)
    ensures Leaks(s.world, request, node)
  {
    hide Store, AccountNodes, DeviceNodes, Agree, Distinct, Added, CurrentNodes, LastNodes;
    if request.SetAccounts? && request.deviceId in s.world.devices {
      var w, d, ids := s.world, request.deviceId, request.ids;
      var accounts, uri := LoadAll(w, d, ids, request.tokens, true), w.devices[d].uri;
      LoadAllIsReady(w, d, ids, request.tokens, true);
      StoredList(w, d, uri, request.version, accounts, false, node);
      StoreNodes(w, d, uri, request.version, accounts, false);
      NewIsNamedAgain(w, d, ids, request.tokens, node);
    }
  }

  lemma NewIsNamedAgain(w: World, deviceId: string, ids: seq<string>, tokens: seq<Token>, node: string)
    requires Agree(w) && |ids| == |tokens| && node !in w.lists
    requires var accounts := LoadAll(w, deviceId, ids, tokens, true);
             node in AccountNodes(accounts) && node !in LastNodes(accounts)
    ensures exists i, j | 0 <= i < j < |ids| ::
              ids[i] == ids[j] && tokens[i].node == node && !Routable(w, Owner(deviceId, ids[i]))
  {
    var accounts := LoadAll(w, deviceId, ids, tokens, true);
    var i: nat :| i < |accounts| && accounts[i].node == node;
    assert !LastOfId(accounts, i);
    var j :| i < j < |accounts| && accounts[j].accountId == accounts[i].accountId;
    assert ids[i] == ids[j] && tokens[i].node == node;
  }

  /** As written, the nodes that resolve and are no account's after a request are those that were so before, those of
      routable accounts that the request drops, and those it leaks. */
  lemma StepLingers(s: Server, request: Request, node: string)
    requires Inv(s) && Possible(s, request)
    ensures var r := Step(s, request, false).world;
            Lingers(r, node) <==>
            || Lingers(s.world, node)
            || (exists owner :: Routable(s.world, owner) && s.world.nodes[owner] == node && node !in CurrentNodes(r))
            || Leaks(s.world, request, node)
  {
    hide Step, Possible, Agree, Leaks;
    var r := Step(s, request, false).world;
    if Leaks(s.world, request, node) {
      LeakLingers(s, request, node);
    } else if node !in s.world.lists {
      if Lingers(r, node) {
        NewLingersLeaks(s, request, node);
      }
    } else if node in CurrentNodes(s.world) {
      if node !in CurrentNodes(r) {
        StepKeepsDropped(s, request, node);
      }
    } else {
      StepFreezesDropped(s, request, node);
      CurrentIsKnown(s.world, node);
    }
  }

  lemma CurrentIsKnown(w: World, node: string)
    ensures node !in CurrentNodes(w) ==> forall owner | owner in w.nodes :: w.nodes[owner] != node
  {
  }

  lemma {:induction false} PossiblePrefix(before: seq<Request>, after: seq<Request>, readFirst: bool)
    requires PossibleRun(before + after, readFirst)
    ensures PossibleRun(before, readFirst)
    decreases |after|
  {
    if after == [] {
      assert before + after == before;
    } else {
      assert (before + after)[..|before + after| - 1] == before + after[..|after| - 1];
      PossiblePrefix(before, after[..|after| - 1], readFirst);
    }
  }

  /** Over whole runs: once dropped, a node keeps its list and is never current again. */
  lemma {:induction false} RunFreezesDropped(before: seq<Request>, after: seq<Request>, node: string)
    requires PossibleRun(before + after, false) && PossibleRun(before, false)
    requires node in Run(before, false).world.lists && node !in CurrentNodes(Run(before, false).world)
    ensures var w := Run(before + after, false).world;
            node in w.lists && w.lists[node] == Run(before, false).world.lists[node] && node !in CurrentNodes(w)
    decreases |after|
  {
    hide CurrentNodes, Step;
    if after == [] {
      assert before + after == before;
    } else {
      var front := after[..|after| - 1];
      assert (before + after)[..|before + after| - 1] == before + front;
      RunFreezesDropped(before, front, node);
      RunKeepsInv(before + front, false);
      StepFreezesDropped(Run(before + front, false), after[|after| - 1], node);
    }
  }

  // ---------- Secrets ----------

  predicate Carries(entries: seq<Entry>, secret: string) {
    forall i | 0 <= i < |entries| :: entries[i].secret == secret
  }

  lemma {:induction false} EntriesCarry(deviceId: string, accounts: seq<PushAccount>, node: string, secret: string)
    requires forall i | 0 <= i < |accounts| && accounts[i].node == node :: accounts[i].secret == secret
    ensures Carries(EntriesFor(deviceId, accounts, node), secret)
  {
    if accounts != [] {
      EntriesCarry(deviceId, accounts[..|accounts| - 1], node, secret);
    }
  }

  /** What is loaded for a node that is known has the secret of its list; for any other, that of the node's token. */
  lemma LoadedSecrets(w: World, deviceId: string, ids: seq<string>, tokens: seq<Token>, connected: bool, node: string,
                      secret: string)
    requires Agree(w) && |ids| == |tokens| && New(w, tokens)
    requires if node in w.lists then Carries(w.lists[node], secret)
             else forall i | 0 <= i < |tokens| && tokens[i].node == node :: tokens[i].secret == secret
    ensures forall a | a in LoadAll(w, deviceId, ids, tokens, connected) && a.node == node :: a.secret == secret
  {
  }

  lemma StoreCarries(s: Server, request: Request, node: string, secret: string)
    requires Inv(s) && Possible(s, request)
    requires if node in s.world.lists then Carries(s.world.lists[node], secret)
             else request.SetAccounts?
                  && forall i | 0 <= i < |request.tokens| && request.tokens[i].node == node ::
                       request.tokens[i].secret == secret
    ensures var w := Step(s, request, false).world; node in w.lists ==> Carries(w.lists[node], secret)
  {
    hide Store, LoadAll, AccountNodes, DeviceNodes, EntriesFor, Agree, New;
    if request.SetAccounts? && request.deviceId in s.world.devices {
      var w, d := s.world, request.deviceId;
      var accounts := LoadAll(w, d, request.ids, request.tokens, true);
      LoadedSecrets(w, d, request.ids, request.tokens, true, node, secret);
      StoredList(w, d, w.devices[d].uri, request.version, accounts, false, node);
      EntriesCarry(d, accounts, node, secret);
    }
  }

  /** The request sets the node up with its i-th token. */
  ghost predicate Issues(before: seq<Request>, request: Request, i: nat, node: string) {
    && PossibleRun(before, false) && PossibleRun(before + [request], false)
    && request.SetAccounts? && i < |request.tokens| && request.tokens[i].node == node
    && node !in Run(before, false).world.lists && node in Run(before + [request], false).world.lists
  }

  lemma LastStep(before: seq<Request>, last: Request)
    requires PossibleRun(before, false) && PossibleRun(before + [last], false)
    ensures Possible(Run(before, false), last) && Run(before + [last], false) == Step(Run(before, false), last, false)
  {
    assert (before + [last])[..|before + [last]| - 1] == before;
  }

  /** As written, over the rest of any run every entry of a node's list carries the secret that the node was set up
      with. */
  lemma {:induction false} ListsCarrySecrets(before: seq<Request>, request: Request, i: nat, node: string,
                                             after: seq<Request>)
    requires Issues(before, request, i, node) && PossibleRun(before + [request] + after, false)
    ensures var w := Run(before + [request] + after, false).world;
            node in w.lists && Carries(w.lists[node], request.tokens[i].secret)
    decreases |after|
  {
    hide Step, Run, PossibleRun, Carries;
    if after == [] {
      assert before + [request] + after == before + [request];
      LastStep(before, request);
      RunKeepsInv(before, false);
      assert TokenNodes(request.tokens)[i] == node;
      assert forall j | 0 <= j < |request.tokens| :: TokenNodes(request.tokens)[j] == request.tokens[j].node;
      StoreCarries(Run(before, false), request, node, request.tokens[i].secret);
    } else {
      var front, last := before + [request] + after[..|after| - 1], after[|after| - 1];
      assert before + [request] + after == front + [last];
      PossiblePrefix(front, [last], false);
      ListsCarrySecrets(before, request, i, node, after[..|after| - 1]);
      LastStep(front, last);
      RunKeepsInv(front, false);
      StoreCarries(Run(front, false), last, node, request.tokens[i].secret);
      StepKeepsLists(Run(front, false), last, node);
    }
  }

  /** And every node that has a list was set up by one of the requests. */
  lemma {:induction false} ListsAreIssued(requests: seq<Request>, node: string)
    requires PossibleRun(requests, false) && node in Run(requests, false).world.lists
    ensures exists k: nat, i: nat | k < |requests| :: Issues(requests[..k], requests[k], i, node)
  {
    hide Step, Possible;
    if requests != [] {
      var n := |requests| - 1;
      var before, last := requests[..n], requests[n];
      assert before + [last] == requests;
      if node in Run(before, false).world.lists {
        ListsAreIssued(before, node);
        var k: nat, i: nat :| k < n && Issues(before[..k], before[k], i, node);
        assert before[..k] == requests[..k];
        assert Issues(requests[..k], requests[k], i, node);
      } else {
        LastStep(before, last);
        RunKeepsInv(before, false);
        var i := NewListHasToken(Run(before, false), last, node);
        assert Issues(requests[..n], requests[n], i, node);
      }
    }
  }

  lemma NewListHasToken(s: Server, request: Request, node: string) returns (i: nat)
    requires Inv(s) && Possible(s, request)
    requires node !in s.world.lists && node in Step(s, request, false).world.lists
    ensures request.SetAccounts? && i < |request.tokens| && request.tokens[i].node == node
  {
    hide Store, LoadAll, AccountNodes, DeviceNodes, EntriesFor, Agree, New, CurrentNodes;
    if request.SetAccounts? && request.deviceId in s.world.devices {
      var w, d := s.world, request.deviceId;
      var accounts := LoadAll(w, d, request.ids, request.tokens, true);
      StoredList(w, d, w.devices[d].uri, request.version, accounts, false, node);
      LoadedNodes(w, d, request.ids, request.tokens, true, node);
      ListsKnown(w);
      i :| i < |request.tokens| && request.tokens[i].node == node;
    }
  }

  /** So a device that sends an account again is told, while the account is routable, the node and the secret that its
      node was set up with, whatever was sent in between; and else those of the new token. */
  lemma ToldSecrets(before: seq<Request>, request: Request, i: nat, after: seq<Request>, deviceId: string,
                    ids: seq<string>, tokens: seq<Token>, connected: bool, j: nat)
    requires PossibleRun(before + [request] + after, false) && |ids| == |tokens| && j < |ids|
    requires var w, owner := Run(before + [request] + after, false).world, Owner(deviceId, ids[j]);
             Routable(w, owner) ==> Issues(before, request, i, w.nodes[owner])
    ensures var w, owner := Run(before + [request] + after, false).world, Owner(deviceId, ids[j]);
            var told := LoadAll(w, deviceId, ids, tokens, connected)[j];
            && told.accountId == ids[j]
            && (Routable(w, owner) ==>
                  && told.node == w.nodes[owner] == request.tokens[i].node
                  && told.secret == request.tokens[i].secret)
            && (!Routable(w, owner) ==> told.node == tokens[j].node && told.secret == tokens[j].secret)
  {
    hide Run, PossibleRun, Issues;
    var w, owner := Run(before + [request] + after, false).world, Owner(deviceId, ids[j]);
    if Routable(w, owner) {
      ListsCarrySecrets(before, request, i, w.nodes[owner], after);
      IssuedToken(before, request, i, w.nodes[owner]);
    }
  }

  lemma IssuedToken(before: seq<Request>, request: Request, i: nat, node: string)
    requires Issues(before, request, i, node)
    ensures request.SetAccounts? && i < |request.tokens| && request.tokens[i].node == node
  {
  }

  /** In the variant a node resolves if and only if it is the current node of an account, and then to that
      account and its device. */
  lemma CleanResolvesCurrent(w: World, node: string)
    requires Agree(w) && Clean(w)
    ensures Resolves(w, node) <==> node in CurrentNodes(w)
    ensures forall owner | owner in w.nodes && w.nodes[owner] == node ::
              && Resolves(w, node)
              && w.lists[node][0].accountId == owner.accountId && w.lists[node][0].deviceId == owner.deviceId
  {
  }
}
