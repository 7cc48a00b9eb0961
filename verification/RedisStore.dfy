/** The registrations in Redis: how the abstract state is laid out in the key space, and the operations
    of the store, command by command. */
module RedisStore {
  import opened Options
  import opened Registry
  import opened Redis

  // ---------- Names ----------

  /** The key of the token for the notification service. */
  const WNS_TOKEN_KEY := "WNS"

  /** The hash function, and which strings are device ids. Every other string can name a node. */
  datatype Names = Names(hash: string -> string, isDevice: string -> bool)
  {
    ghost predicate IsNode(s: string) {
      s != WNS_TOKEN_KEY && !isDevice(s) && forall joined :: hash(joined) != s
    }
  }

  /** The hash has no collisions and gives no device id, and device ids are free of the separator. */
  ghost predicate Separated(names: Names) {
    && (forall a, b | names.hash(a) == names.hash(b) :: a == b)
    && (forall s :: !names.isDevice(names.hash(s)))
    && (forall s | names.isDevice(s) :: '_' !in s)
  }

  function Joined(owner: Owner): string {
    owner.deviceId + "_" + owner.accountId
  }

  /** gen_account */
  function AccountKey(names: Names, owner: Owner): string {
    names.hash(Joined(owner))
  }

  /** The hashed string determines device and account when device ids contain no separator. */
  lemma JoinedInjective(a: Owner, b: Owner)
    requires Joined(a) == Joined(b) && '_' !in a.deviceId && '_' !in b.deviceId
    ensures a == b
  {
    var s, n, m := Joined(a), |a.deviceId|, |b.deviceId|;
    assert s[n] == '_' && s[m] == '_';
    assert a.deviceId == s[..n] && a.accountId == s[n + 1..];
    assert b.deviceId == s[..m] && b.accountId == s[m + 1..];
    assert forall i | 0 <= i < n :: s[i] == a.deviceId[i];
    assert forall i | 0 <= i < m :: s[i] == b.deviceId[i];
  }

  /** Two device ids can share a joined string exactly when one of them, with the separator, begins the other. */
  lemma JoinedCollides(a: string, b: string)
    requires a != b
    ensures (exists x, y :: Joined(Owner(a, x)) == Joined(Owner(b, y))) <==> a + "_" <= b || b + "_" <= a
  {
    if x, y :| Joined(Owner(a, x)) == Joined(Owner(b, y)) {
      if |a| <= |b| {
        PrefixOfJoined(a, x, b, y);
      } else {
        PrefixOfJoined(b, y, a, x);
      }
    }
    if a + "_" <= b {
      JoinedMeets(a, b);
    } else if b + "_" <= a {
      JoinedMeets(b, a);
    }
  }

  lemma PrefixOfJoined(a: string, x: string, b: string, y: string)
    requires a != b && |a| <= |b| && Joined(Owner(a, x)) == Joined(Owner(b, y))
    ensures a + "_" <= b
  {
    var s := Joined(Owner(a, x));
    assert s[..|a|] == a && s[..|b|] == b && s[|a|] == '_';
    if |a| == |b| {
      assert false;
    }
    assert b[..|a| + 1] == s[..|a| + 1] == a + "_";
  }

  lemma JoinedMeets(a: string, b: string)
    requires a + "_" <= b
    ensures Joined(Owner(a, b[|a| + 1..] + "_")) == Joined(Owner(b, ""))
  {
    assert b == (a + "_") + b[|a| + 1..];
  }

  /** For example, when device ids hold the separator themselves. */
  lemma JoinedCollision()
    ensures Joined(Owner("a_b", "c")) == Joined(Owner("a", "b_c"))
  {
  }

  lemma AccountKeyInjective(names: Names, a: Owner, b: Owner)
    requires Separated(names) && names.isDevice(a.deviceId) && names.isDevice(b.deviceId)
    requires AccountKey(names, a) == AccountKey(names, b)
    ensures a == b
  {
    JoinedInjective(a, b);
  }

  // ---------- Layout ----------

  function AccountKeys(names: Names, deviceId: string, ids: seq<string>): (keys: seq<string>)
    ensures |keys| == |ids|
  {
    seq(|ids|, i requires 0 <= i < |ids| => AccountKey(names, Owner(deviceId, ids[i])))
  }

  /** A device holds its URI and, once accounts were set, the version and the account keys. */
  function DeviceItems(names: Names, deviceId: string, device: Device): seq<string> {
    if device.version.None? then [device.uri]
    else [device.uri, device.version.value] + AccountKeys(names, deviceId, device.ids)
  }

  function EntryItems(e: Entry): seq<string> {
    [e.accountId, e.deviceId, e.secret]
  }

  function Flatten(entries: seq<Entry>): (items: seq<string>)
    ensures |items| == 3 * |entries|
  {
    if entries == [] then [] else Flatten(entries[..|entries| - 1]) + EntryItems(entries[|entries| - 1])
  }

  /** The key space holds exactly the abstract state: each kind of key, present or absent, as the state says. */
  ghost predicate Represents(names: Names, db: map<string, Value>, w: World) {
    && (forall d | d in w.devices :: names.isDevice(d) && (w.devices[d].version.None? ==> w.devices[d].ids == []))
    && (forall owner | owner in w.nodes :: names.IsNode(w.nodes[owner]))
    && (forall node | node in w.lists :: names.IsNode(node) && w.lists[node] != [])
    && (forall d | names.isDevice(d) :: DeviceAt(names, db, w, d))
    && (forall node | names.IsNode(node) :: NodeAt(db, w, node))
    && (forall owner: Owner | names.isDevice(owner.deviceId) :: AccountAt(names, db, w, owner))
  }

  predicate DeviceAt(names: Names, db: map<string, Value>, w: World, d: string) {
    if d in w.devices then d in db && db[d] == List(DeviceItems(names, d, w.devices[d])) else d !in db
  }

  predicate NodeAt(db: map<string, Value>, w: World, node: string) {
    if node in w.lists then node in db && db[node] == List(Flatten(w.lists[node])) else node !in db
  }

  predicate AccountAt(names: Names, db: map<string, Value>, w: World, owner: Owner) {
    var key := AccountKey(names, owner);
    if owner in w.nodes then key in db && db[key] == Str(w.nodes[owner]) else key !in db
  }

  lemma {:induction false} FlattenAt(entries: seq<Entry>, k: nat)
    requires k < |entries|
    ensures var items := Flatten(entries);
            && items[3 * k] == entries[k].accountId && items[3 * k + 1] == entries[k].deviceId
            && items[3 * k + 2] == entries[k].secret
  {
    if k < |entries| - 1 {
      FlattenAt(entries[..|entries| - 1], k);
    }
  }

  /** What stands under each key. A device: its URI; then the version and the hashes of its id and those of its
      accounts, joined by '_'. Such a hash: the account's node. A node: account, device and secret of every entry. */
  lemma LayoutExactly(names: Names, db: map<string, Value>, w: World)
    requires Represents(names, db, w)
    ensures forall d | names.isDevice(d) ::
              && (d in db <==> d in w.devices)
              && (d in w.devices ==>
                    var device := w.devices[d];
                    && db[d].List? && (device.version.None? ==> db[d].items == [device.uri])
                    && (device.version.Some? ==>
                          && |db[d].items| == 2 + |device.ids|
                          && db[d].items[0] == device.uri && db[d].items[1] == device.version.value
                          && forall i | 0 <= i < |device.ids| ::
                               db[d].items[2 + i] == names.hash(d + "_" + device.ids[i])))
    ensures forall owner: Owner | names.isDevice(owner.deviceId) ::
              var key := names.hash(owner.deviceId + "_" + owner.accountId);
              && (key in db <==> owner in w.nodes)
              && (owner in w.nodes ==> db[key] == Str(w.nodes[owner]))
    ensures forall node | names.IsNode(node) ::
              && (node in db <==> node in w.lists)
              && (node in w.lists ==>
                    && db[node].List? && |db[node].items| == 3 * |w.lists[node]|
                    && forall k: nat | k < |w.lists[node]| ::
                         var e := w.lists[node][k];
                         && db[node].items[3 * k] == e.accountId && db[node].items[3 * k + 1] == e.deviceId
                         && db[node].items[3 * k + 2] == e.secret)
  {
    hide Names.IsNode, Flatten;
    forall d | names.isDevice(d) ensures DeviceAt(names, db, w, d) {
    }
    forall owner: Owner | names.isDevice(owner.deviceId) ensures AccountAt(names, db, w, owner) {
    }
    forall node | names.IsNode(node) ensures NodeAt(db, w, node) {
    }
    forall node, k: nat | node in w.lists && k < |w.lists[node]|
      ensures Flatten(w.lists[node])[3 * k] == w.lists[node][k].accountId
      ensures Flatten(w.lists[node])[3 * k + 1] == w.lists[node][k].deviceId
      ensures Flatten(w.lists[node])[3 * k + 2] == w.lists[node][k].secret
    {
      FlattenAt(w.lists[node], k);
    }
  }

  // ---------- One command, one part of the state ----------

  lemma EmptyRepresents(names: Names)
    ensures Represents(names, map[], EMPTY)
  {
  }

  lemma SetDevice(names: Names, db: map<string, Value>, w: World, d: string, device: Device)
    requires Separated(names) && Represents(names, db, w) && names.isDevice(d)
    requires device.version.None? ==> device.ids == []
    ensures Represents(names, db[d := List(DeviceItems(names, d, device))], w.(devices := w.devices[d := device]))
  {
  }

  lemma DropDevice(names: Names, db: map<string, Value>, w: World, d: string)
    requires Separated(names) && Represents(names, db, w) && names.isDevice(d)
    ensures Represents(names, db - {d}, w.(devices := w.devices - {d}))
  {
  }

  lemma SetAccount(names: Names, db: map<string, Value>, w: World, owner: Owner, node: string)
    requires Separated(names) && Represents(names, db, w) && names.isDevice(owner.deviceId) && names.IsNode(node)
    ensures Represents(names, db[AccountKey(names, owner) := Str(node)], w.(nodes := w.nodes[owner := node]))
  {
    var db', w' := db[AccountKey(names, owner) := Str(node)], w.(nodes := w.nodes[owner := node]);
    forall other: Owner | names.isDevice(other.deviceId) ensures AccountAt(names, db', w', other) {
      assert AccountAt(names, db, w, other);
      if AccountKey(names, other) == AccountKey(names, owner) {
        AccountKeyInjective(names, other, owner);
      }
    }
  }

  lemma DropAccount(names: Names, db: map<string, Value>, w: World, owner: Owner)
    requires Separated(names) && Represents(names, db, w) && names.isDevice(owner.deviceId)
    ensures Represents(names, db - {AccountKey(names, owner)}, w.(nodes := w.nodes - {owner}))
  {
    var db', w' := db - {AccountKey(names, owner)}, w.(nodes := w.nodes - {owner});
    forall other: Owner | names.isDevice(other.deviceId) ensures AccountAt(names, db', w', other) {
      assert AccountAt(names, db, w, other);
      if AccountKey(names, other) == AccountKey(names, owner) {
        AccountKeyInjective(names, other, owner);
      }
    }
  }

  lemma SetNode(names: Names, db: map<string, Value>, w: World, node: string, entries: seq<Entry>)
    requires Separated(names) && Represents(names, db, w) && names.IsNode(node) && entries != []
    ensures Represents(names, db[node := List(Flatten(entries))], w.(lists := w.lists[node := entries]))
  {
    hide Flatten;
  }

  lemma AppendEntry(names: Names, db: map<string, Value>, w: World, node: string, entry: Entry)
    requires Separated(names) && Represents(names, db, w) && names.IsNode(node)
    ensures node in db ==> db[node].List?
    ensures Represents(names, db[node := List((if node in db then db[node].items else []) + EntryItems(entry))],
                       w.(lists := Append(w.lists, node, entry)))
  {
    assert NodeAt(db, w, node);
    var entries := if node in w.lists then w.lists[node] else [];
    assert (entries + [entry])[..|entries|] == entries;
    assert Flatten(entries + [entry]) == (if node in db then db[node].items else []) + EntryItems(entry);
    hide Represents, Flatten;
    SetNode(names, db, w, node, entries + [entry]);
  }

  lemma DropNode(names: Names, db: map<string, Value>, w: World, node: string)
    requires Separated(names) && Represents(names, db, w) && names.IsNode(node)
    ensures Represents(names, db - {node}, w.(lists := w.lists - {node}))
  {
  }

  // ---------- The store ----------

  /** An account under construction, filled in through a reference. */
  class Account {
    const accountId: string
    var node: string
    var secret: string
    var success: bool

    constructor (accountId: string, token: Token, success: bool)
      ensures View() == PushAccount(accountId, token.node, token.secret, success)
    {
      this.accountId := accountId;
      node, secret, this.success := token.node, token.secret, success;
    }

    function View(): PushAccount
      reads this
    {
      PushAccount(accountId, node, secret, success)
    }
  }

  class RedisClient {
    const names: Names
    const redis: Redis
    ghost var world: World

    ghost predicate Valid()
      reads this, redis
    {
      Separated(names) && Represents(names, redis.db, world)
    }

    constructor (names: Names)
      requires Separated(names)
      ensures Valid() && this.names == names && fresh(redis) && world == EMPTY
    {
      this.names := names;
      redis := new Redis();
      world := EMPTY;
      new;
      EmptyRepresents(names);
    }

    // ----- Lookups -----

    method GetChannelUri(deviceId: string) returns (uri: Option<string>)
      requires Valid() && names.isDevice(deviceId)
      ensures uri == if deviceId in world.devices then Some(world.devices[deviceId].uri) else None
    {
      assert DeviceAt(names, redis.db, world, deviceId);
      var keys := redis.LRange(deviceId);
      if keys == [] {
        return None;
      }
      return Some(keys[0]);
    }

    method GetVersion(deviceId: string) returns (version: Option<string>)
      requires Valid() && names.isDevice(deviceId)
      ensures version == if deviceId in world.devices then world.devices[deviceId].version else None
    {
      assert DeviceAt(names, redis.db, world, deviceId);
      var keys := redis.LRange(deviceId);
      if |keys| < 2 {
        return None;
      }
      return Some(keys[1]);
    }

    method GetAccountId(node: string) returns (accountId: Option<string>)
      requires Valid() && names.IsNode(node)
      ensures accountId == if Resolves(world, node) then Some(world.lists[node][0].accountId) else None
    {
      assert NodeAt(redis.db, world, node);
      var keys := redis.LRange(node);
      if |keys| != 3 {
        return None;
      }
      return Some(keys[0]);
    }

    method GetDeviceId(node: string) returns (deviceId: Option<string>)
      requires Valid() && names.IsNode(node)
      ensures deviceId == if Resolves(world, node) then Some(world.lists[node][0].deviceId) else None
    {
      assert NodeAt(redis.db, world, node);
      var keys := redis.LRange(node);
      if |keys| != 3 {
        return None;
      }
      return Some(keys[1]);
    }

    method GetNodeSecret(node: string) returns (secret: Option<string>)
      requires Valid() && names.IsNode(node)
      ensures secret == if Resolves(world, node) then Some(world.lists[node][0].secret) else None
    {
      assert NodeAt(redis.db, world, node);
      var keys := redis.LRange(node);
      if |keys| != 3 {
        return None;
      }
      return Some(keys[2]);
    }

    /** The nodes of a device in the order of its accounts. The assertion holds: whenever the indexes agree,
        every account key a device holds has a node. */
    method GetPushNodes(deviceId: string) returns (nodes: seq<string>)
      requires Valid() && Agree(world) && names.isDevice(deviceId)
      ensures |nodes| == |OldIds(world, deviceId)|
      ensures forall i: nat | i < |nodes| ::
                var owner := Owner(deviceId, OldIds(world, deviceId)[i]);
                owner in world.nodes && nodes[i] == world.nodes[owner]
    {
      hide Represents;
      ghost var ids := OldIds(world, deviceId);
      nodes := [];
      LayoutOfDevice(names, redis.db, world, deviceId);
      var keys := redis.LRange(deviceId);
      var i := 2;
      while i < |keys|
        invariant 2 <= i && |nodes| == i - 2 && |nodes| <= |ids|
        invariant |keys| >= 2 ==> |keys| == |ids| + 2
        invariant |keys| < 2 ==> ids == []
        invariant forall j: nat | j < |nodes| ::
                    Owner(deviceId, ids[j]) in world.nodes && nodes[j] == world.nodes[Owner(deviceId, ids[j])]
      {
        ghost var owner := Owner(deviceId, ids[i - 2]);
        assert owner in world.nodes;
        LayoutOfAccount(names, redis.db, world, owner);
        var node := redis.Get(keys[i]);
        assert node.Some?;
        nodes := nodes + [node.value];
        i := i + 1;
      }
    }

    method LoadPushAccount(deviceId: string, account: Account)
      requires Valid() && names.isDevice(deviceId)
      modifies account`node, account`secret, account`success
      ensures var was := old(account.View());
              account.View() == Load(world, deviceId, was.accountId, Token(was.node, was.secret), was.success)
    {
      ghost var owner := Owner(deviceId, account.accountId);
      assert AccountAt(names, redis.db, world, owner);
      var accountId := AccountKey(names, Owner(deviceId, account.accountId));
      var node := redis.Get(accountId);
      if node.None? {
        return;
      }
      var secret := GetNodeSecret(node.value);
      if secret.None? {
        return;
      }
      account.node := node.value;
      account.secret := secret.value;
      account.success := true;
    }

    // ----- Updates -----

    method SetChannelUri(deviceId: string, channelUri: string)
      requires Valid() && names.isDevice(deviceId)
      modifies redis, this`world
      ensures Valid() && world == StoreUri(old(world), deviceId, channelUri)
    {
      hide Represents, DeviceItems, AccountKeys, StoreUri;
      LayoutOfDevice(names, redis.db, world, deviceId);
      UriItems(names, redis.db, world, deviceId, channelUri);
      ghost var db := redis.db;
      var keys := redis.LRange(deviceId);
      if keys == [] {
        keys := keys + [channelUri];
      } else {
        keys := keys[0 := channelUri];
        redis.Del(deviceId);
      }
      redis.RPush(deviceId, keys);
      ghost var device := StoreUri(world, deviceId, channelUri).devices[deviceId];
      SetDevice(names, db, world, deviceId, device);
      assert keys == DeviceItems(names, deviceId, device);
      assert [] + keys == keys;
      assert redis.db == db[deviceId := List(keys)];
      world := StoreUri(world, deviceId, channelUri);
    }

    /** As written: each account key is deleted before it is read, so no node is found and no list goes. */
    method SetPushAccounts(deviceId: string, channelUri: string, version: string, accounts: seq<PushAccount>)
      requires Valid() && names.isDevice(deviceId)
      requires forall i | 0 <= i < |accounts| :: names.IsNode(accounts[i].node)
      modifies redis, this`world
      ensures Valid() && world == Store(old(world), deviceId, channelUri, version, accounts, false)
    {
      hide Represents, Owners, AddNodes, AddEntries;
      LayoutOfDevice(names, redis.db, world, deviceId);
      ghost var w, ids := world, OldIds(world, deviceId);
      var keys := redis.LRange(deviceId);
      NoOwners(deviceId, w.nodes);
      DropNone(w, deviceId);
      if keys != [] {
        var i := 2;
        while i < |keys|
          invariant 2 <= i && (|keys| >= 2 ==> i <= |keys|)
          invariant Valid() && world == w.(nodes := w.nodes - Owners(deviceId, ids[..if |keys| < 2 then 0 else i - 2]))
        {
          var account := keys[i];
          ghost var owner := Owner(deviceId, ids[i - 2]);
          DropAccount(names, redis.db, world, owner);
          redis.Del(account);
          NextOwner(deviceId, ids, i - 2, w.nodes);
          world := world.(nodes := world.nodes - {owner});
          LayoutOfAccount(names, redis.db, world, owner);
          var node := redis.Get(account);
          if node.Some? {
            // here the node's list would be deleted
            assert false;
          }
          i := i + 1;
        }
        DropDevice(names, redis.db, world, deviceId);
        redis.Del(deviceId);
        world := world.(devices := world.devices - {deviceId});
      }
      assert ids[..|ids|] == ids;
      assert world == Forget(w, deviceId, false);
      StoreNew(deviceId, channelUri, version, accounts);
    }

    /** The variant that reads each account before deleting it, as the comments of the code intend. */
    method SetPushAccountsReadFirst(deviceId: string, channelUri: string, version: string, accounts: seq<PushAccount>)
      requires Valid() && names.isDevice(deviceId)
      requires forall i | 0 <= i < |accounts| :: names.IsNode(accounts[i].node)
      modifies redis, this`world
      ensures Valid() && world == Store(old(world), deviceId, channelUri, version, accounts, true)
    {
      hide Represents, Owners, AddNodes, AddEntries, NodesOf;
      LayoutOfDevice(names, redis.db, world, deviceId);
      ghost var w, ids := world, OldIds(world, deviceId);
      var keys := redis.LRange(deviceId);
      NoOwners(deviceId, w.nodes);
      DropNone(w, deviceId);
      if keys != [] {
        var i := 2;
        while i < |keys|
          invariant 2 <= i && (|keys| >= 2 ==> i <= |keys|)
          invariant Valid() && world == Partly(w, deviceId, ids[..if |keys| < 2 then 0 else i - 2])
        {
          var account := keys[i];
          ghost var owner := Owner(deviceId, ids[i - 2]);
          LayoutOfAccount(names, redis.db, world, owner);
          var node := redis.Get(account);
          NextPartly(w, deviceId, ids, i - 2);
          DropAccount(names, redis.db, world, owner);
          redis.Del(account);
          world := world.(nodes := world.nodes - {owner});
          if node.Some? {
            DropNode(names, redis.db, world, node.value);
            redis.Del(node.value);
            world := world.(lists := world.lists - {node.value});
          }
          i := i + 1;
        }
        DropDevice(names, redis.db, world, deviceId);
        redis.Del(deviceId);
        world := world.(devices := world.devices - {deviceId});
      }
      assert ids[..|ids|] == ids;
      assert world == Forget(w, deviceId, true);
      StoreNew(deviceId, channelUri, version, accounts);
    }

    /** The second half of the update: the new accounts, their nodes, and the device. */
    method StoreNew(deviceId: string, channelUri: string, version: string, accounts: seq<PushAccount>)
      requires Valid() && names.isDevice(deviceId)
      requires forall i | 0 <= i < |accounts| :: names.IsNode(accounts[i].node)
      modifies redis, this`world
      ensures Valid()
      ensures world == World(old(world).devices[deviceId := Device(channelUri, Some(version), Ids(accounts))],
                             AddNodes(old(world).nodes, deviceId, accounts),
                             AddEntries(old(world).lists, deviceId, accounts))
    {
      hide Represents;
      ghost var w := world;
      var keys := [channelUri, version];
      var i := 0;
      while i < |accounts|
        invariant 0 <= i <= |accounts|
        invariant Valid()
        invariant keys == [channelUri, version] + AccountKeys(names, deviceId, Ids(accounts[..i]))
        invariant world == World(w.devices, AddNodes(w.nodes, deviceId, accounts[..i]),
                                 AddEntries(w.lists, deviceId, accounts[..i]))
      {
        var pushAccount := accounts[i];
        ghost var owner := Owner(deviceId, pushAccount.accountId);
        var account := AccountKey(names, Owner(deviceId, pushAccount.accountId));
        assert accounts[..i + 1][..i] == accounts[..i];
        keys := keys + [account];
        assert keys == [channelUri, version] + AccountKeys(names, deviceId, Ids(accounts[..i + 1]));
        SetAccount(names, redis.db, world, owner, pushAccount.node);
        redis.Set(account, pushAccount.node);
        world := world.(nodes := world.nodes[owner := pushAccount.node]);
        ghost var entry := Entry(pushAccount.accountId, deviceId, pushAccount.secret);
        AppendEntry(names, redis.db, world, pushAccount.node, entry);
        redis.RPush(pushAccount.node, [pushAccount.accountId, deviceId, pushAccount.secret]);
        world := world.(lists := Append(world.lists, pushAccount.node, entry));
        i := i + 1;
      }
      assert accounts[..i] == accounts;
      ghost var db, device := redis.db, Device(channelUri, Some(version), Ids(accounts));
      redis.Del(deviceId);
      redis.RPush(deviceId, keys);
      SetDevice(names, db, world, deviceId, device);
      assert [] + keys == keys;
      assert redis.db == db[deviceId := List(keys)];
      world := world.(devices := world.devices[deviceId := device]);
    }
  }

  /** Announcing a URI replaces the first item of the device's list, or starts the list with it. */
  lemma UriItems(names: Names, db: map<string, Value>, w: World, deviceId: string, uri: string)
    requires Represents(names, db, w) && names.isDevice(deviceId)
    ensures deviceId in db ==> db[deviceId].List?
    ensures var r, keys := StoreUri(w, deviceId, uri), if deviceId in db then db[deviceId].items else [];
            && deviceId in r.devices && r == w.(devices := w.devices[deviceId := r.devices[deviceId]])
            && (r.devices[deviceId].version.None? ==> r.devices[deviceId].ids == [])
            && DeviceItems(names, deviceId, r.devices[deviceId]) == (if keys == [] then [uri] else keys[0 := uri])
    ensures deviceId in w.devices <==> deviceId in db
  {
  }

  lemma DropNone(w: World, deviceId: string)
    ensures deviceId !in w.devices ==> w.devices - {deviceId} == w.devices
    ensures w.lists - NodesOf(w.nodes, {}) == w.lists
  {
  }

  lemma NoOwners<T>(deviceId: string, m: map<Owner, T>)
    ensures Owners(deviceId, []) == {} && m - Owners(deviceId, []) == m
  {
  }

  lemma NextOwner<T>(deviceId: string, ids: seq<string>, i: nat, m: map<Owner, T>)
    requires i < |ids|
    ensures m - Owners(deviceId, ids[..i + 1]) == m - Owners(deviceId, ids[..i]) - {Owner(deviceId, ids[i])}
  {
  }

  /** The variant's deletion after the first accounts. */
  function Partly(w: World, deviceId: string, ids: seq<string>): World {
    var gone := Owners(deviceId, ids);
    World(w.devices, w.nodes - gone, w.lists - NodesOf(w.nodes, gone))
  }

  lemma NextPartly(w: World, deviceId: string, ids: seq<string>, i: nat)
    requires i < |ids|
    ensures var owner, before := Owner(deviceId, ids[i]), Partly(w, deviceId, ids[..i]);
            Partly(w, deviceId, ids[..i + 1])
            == World(w.devices, before.nodes - {owner},
                     if owner in before.nodes then before.lists - {before.nodes[owner]} else before.lists)
  {
  }

  /** The list of a device: empty, or its items with the account keys from index 2 on. */
  lemma LayoutOfDevice(names: Names, db: map<string, Value>, w: World, deviceId: string)
    requires Represents(names, db, w) && names.isDevice(deviceId)
    ensures deviceId in db ==> db[deviceId].List?
    ensures var keys, ids := if deviceId in db then db[deviceId].items else [], OldIds(w, deviceId);
            && (keys == [] <==> deviceId !in w.devices)
            && (|keys| < 2 ==> ids == [])
            && (|keys| >= 2 ==>
                  && |keys| == |ids| + 2
                  && forall i: nat | i < |ids| :: keys[i + 2] == AccountKey(names, Owner(deviceId, ids[i])))
  {
  }

  lemma LayoutOfAccount(names: Names, db: map<string, Value>, w: World, owner: Owner)
    requires Represents(names, db, w) && names.isDevice(owner.deviceId)
    ensures AccountAt(names, db, w, owner)
    ensures owner in w.nodes ==> names.IsNode(w.nodes[owner])
  {
  }
}
