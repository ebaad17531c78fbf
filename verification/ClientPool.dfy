/**
 The slot allocator of the client pool, `ClientMutex` in
 rssdisk/client/rssdisk_pool.hpp.  Every method runs under the pool's lock, so a run of
 the pool is any sequence of calls; whether a new client can be set up, and the time,
 come from outside.
 */
module ClientPool {
  import opened Wrappers

  datatype Client = Client(id: nat, poolIndex: int)

  datatype Call = Acquire(now: int, id: nat, ok: bool) | Release(slot: int) | Clear(now: int)

  /** The slots of a list of clients, in order. */
  function Slots(cs: seq<Client>): (r: seq<int>)
    ensures |r| == |cs| && forall i :: 0 <= i < |cs| ==> r[i] == cs[i].poolIndex
  {
    seq(|cs|, i requires 0 <= i < |cs| => cs[i].poolIndex)
  }

  /** The numbers below n, each once. */
  function Upto(n: nat): (m: multiset<int>)
    ensures |m| == n
    ensures forall i :: m[i] == if 0 <= i < n then 1 else 0
  {
    if n == 0 then multiset{} else Upto(n - 1) + multiset{n - 1}
  }

  /** Clients and free slots share out the numbers below n, each going to one. */
  predicate Partition(cs: seq<Client>, av: seq<int>, n: nat) {
    multiset(Slots(cs)) + multiset(av) == Upto(n)
  }

  lemma NoSlots()
    ensures Partition([], [], 0) && Slots([]) == []
  {
  }

  lemma NewClient(cs: seq<Client>, av: seq<int>, n: nat, c: Client)
    requires Partition(cs, av, n) && c.poolIndex == n
    ensures Partition(cs + [c], av, n + 1) && Slots(cs + [c]) == Slots(cs) + [n]
  {
    assert Slots(cs + [c]) == Slots(cs) + [n];
  }

  lemma NewSlot(cs: seq<Client>, av: seq<int>, n: nat)
    requires Partition(cs, av, n)
    ensures Partition(cs, av + [n], n + 1)
  {
  }

  lemma EnoughSlots(cs: seq<Client>, av: seq<int>, n: nat)
    requires Partition(cs, av, n)
    ensures |cs| + |av| == n
  {
    assert |multiset(Slots(cs)) + multiset(av)| == |cs| + |av|;
  }

  /** The clients that `clear` may drop: known to be idle for an hour, and not in use. */
  predicate Idle(c: Client, active: map<int, int>, inUse: set<int>, now: int) {
    c.poolIndex in active && now - active[c.poolIndex] >= 3600 && c.poolIndex !in inUse
  }

  function IdleSlots(cs: seq<Client>, active: map<int, int>, inUse: set<int>, now: int): (r: seq<int>)
    ensures |r| <= |cs|
    ensures forall s :: s in r ==> s !in inUse && s in Slots(cs)
  {
    if cs == [] then []
    else
      var n := |cs| - 1;
      var r := IdleSlots(cs[..n], active, inUse, now);
      assert forall s :: s in Slots(cs[..n]) ==> s in Slots(cs);
      assert cs[n].poolIndex == Slots(cs)[n];
      if Idle(cs[n], active, inUse, now) then r + [cs[n].poolIndex] else r
  }

  /** Exactly the slots of clients that were last used an hour or longer ago and are not in use. */
  lemma {:induction false} IdleSlotsAre(cs: seq<Client>, active: map<int, int>, inUse: set<int>, now: int, s: int)
    ensures s in IdleSlots(cs, active, inUse, now)
       <==> s in Slots(cs) && s in active && now - active[s] >= 3600 && s !in inUse
  {
    if cs != [] {
      var n := |cs| - 1;
      IdleSlotsAre(cs[..n], active, inUse, now, s);
      assert Slots(cs) == Slots(cs[..n]) + [cs[n].poolIndex];
    }
  }

  /** Giving up the first idle slots gives up idle clients only, and giving up all leaves none. */
  lemma OnlyIdleGone(cs: seq<Client>, active: map<int, int>, inUse: set<int>, now: int, k: nat)
    requires k <= |IdleSlots(cs, active, inUse, now)|
    ensures var idle := IdleSlots(cs, active, inUse, now); var kept := Without(cs, ToSet(idle[..k]));
      && (forall c :: c in cs && c !in kept ==> Idle(c, active, inUse, now))
      && (k == |idle| ==> forall c :: c in kept ==> !Idle(c, active, inUse, now))
  {
    hide IdleSlots, Without;
    var idle := IdleSlots(cs, active, inUse, now);
    var kept := Without(cs, ToSet(idle[..k]));
    forall c | c in cs && c !in kept ensures Idle(c, active, inUse, now) {
      IdleSlotsAre(cs, active, inUse, now, c.poolIndex);
      assert c.poolIndex in idle[..k];
    }
    if k == |idle| {
      assert idle[..k] == idle;
      forall c | c in kept ensures !Idle(c, active, inUse, now) {
        IdleSlotsAre(cs, active, inUse, now, c.poolIndex);
        assert c.poolIndex in Slots(cs) by {
          var i :| 0 <= i < |cs| && cs[i] == c;
          assert Slots(cs)[i] == c.poolIndex;
        }
      }
    }
  }

  /** The clients whose slot is not among those given up, in order. */
  function Without(cs: seq<Client>, gone: set<int>): (r: seq<Client>)
    ensures forall c :: c in r <==> c in cs && c.poolIndex !in gone
  {
    if cs == [] then []
    else
      var n := |cs| - 1;
      var r := Without(cs[..n], gone);
      assert cs == cs[..n] + [cs[n]];
      if cs[n].poolIndex in gone then r else r + [cs[n]]
  }

  /** The first client that nobody uses. */
  predicate FirstFree(cs: seq<Client>, inUse: set<int>, i: int) {
    0 <= i < |cs| && cs[i].poolIndex !in inUse && forall k :: 0 <= k < i ==> cs[k].poolIndex in inUse
  }

  predicate Different(r: seq<int>) {
    forall i, j :: 0 <= i < j < |r| ==> r[i] != r[j]
  }

  predicate DistinctSlots(cs: seq<Client>) {
    forall i, j :: 0 <= i < j < |cs| ==> cs[i].poolIndex != cs[j].poolIndex
  }

  function ToSet(r: seq<int>): set<int> {
    set s | s in r
  }

  lemma {:induction false} WithoutTwice(cs: seq<Client>, a: set<int>, b: set<int>)
    ensures Without(Without(cs, a), b) == Without(cs, a + b)
  {
    if cs != [] {
      var n := |cs| - 1;
      WithoutTwice(cs[..n], a, b);
      var r := Without(cs[..n], a);
      if cs[n].poolIndex !in a {
        assert (r + [cs[n]])[..|r|] == r;
      }
    }
  }

  lemma {:induction false} WithoutNone(cs: seq<Client>, a: set<int>)
    requires forall c :: c in cs ==> c.poolIndex !in a
    ensures Without(cs, a) == cs
  {
    if cs != [] {
      var n := |cs| - 1;
      assert cs == cs[..n] + [cs[n]];
      WithoutNone(cs[..n], a);
    }
  }

  /** Erasing the one client of a slot. */
  lemma {:induction false} WithoutOne(cs: seq<Client>, j: nat)
    requires DistinctSlots(cs) && j < |cs|
    ensures Without(cs, {cs[j].poolIndex}) == cs[..j] + cs[j + 1..]
  {
    hide Without;
    var n := |cs| - 1;
    WithoutLast(cs, {cs[j].poolIndex});
    if j == n {
      assert cs[..n] + cs[n + 1..] == cs[..n];
      OthersDiffer(cs);
      WithoutNone(cs[..n], {cs[n].poolIndex});
    } else {
      WithoutOne(cs[..n], j);
      assert cs[..n][..j] == cs[..j];
      assert (cs[..j] + cs[..n][j + 1..]) + [cs[n]] == cs[..j] + cs[j + 1..];
    }
  }

  lemma WithoutLast(cs: seq<Client>, gone: set<int>)
    requires cs != []
    ensures var n := |cs| - 1;
      Without(cs, gone) == Without(cs[..n], gone) + if cs[n].poolIndex in gone then [] else [cs[n]]
  {
  }

  lemma OthersDiffer(cs: seq<Client>)
    requires cs != [] && DistinctSlots(cs)
    ensures forall c :: c in cs[..|cs| - 1] ==> c.poolIndex != cs[|cs| - 1].poolIndex
  {
  }

  lemma {:induction false} IdleDistinct(cs: seq<Client>, active: map<int, int>, inUse: set<int>, now: int)
    requires DistinctSlots(cs)
    ensures Different(IdleSlots(cs, active, inUse, now))
  {
    if cs != [] {
      var n := |cs| - 1;
      IdleDistinct(cs[..n], active, inUse, now);
      var r := IdleSlots(cs[..n], active, inUse, now);
      forall s | s in r ensures s != cs[n].poolIndex {
        var i :| 0 <= i < n && Slots(cs[..n])[i] == s;
      }
      var full := IdleSlots(cs, active, inUse, now);
      assert full == r || full == r + [cs[n].poolIndex];
      forall i, j | 0 <= i < j < |full| ensures full[i] != full[j] {
        assert full[i] == r[i] && r[i] in r;
        assert j < |r| ==> full[j] == r[j];
      }
    }
  }

  class ClientMutex {
    var minClients: nat
    var maxClients: nat
    var startMinClients: nat
    var clients: seq<Client>
    var active: map<int, int>
    var inUse: set<int>
    var available: seq<int>
    /** Slots handed out and not given back, one for each holder. */
    ghost var holders: multiset<int>

    constructor (initial: nat, minimum: nat, maximum: nat)
      ensures startMinClients == initial && minClients == minimum && maxClients == maximum
      ensures clients == [] && available == [] && inUse == {} && holders == multiset{}
    {
      startMinClients, minClients, maxClients := initial, minimum, maximum;
      clients, active, inUse, available, holders := [], map[], {}, [], multiset{};
    }

    /** All slots there are; more than `maxClients` when more were started. */
    ghost function Capacity(): nat
      reads this
    {
      if startMinClients > maxClients then startMinClients else maxClients
    }

    /** Clients and free slots partition the slots; held slots have a client, and one holder each. */
    ghost predicate Valid()
      reads this
    {
      && Partition(clients, available, Capacity())
      && (forall s :: s in inUse ==> s in Slots(clients))
      && holders == multiset(inUse)
    }

    /** `initialize`: the i-th attempt succeeds as `ok` says. */
    method Initialize(ok: seq<bool>)
      requires |ok| == startMinClients && clients == [] && available == [] && inUse == {} && holders == multiset{}
      modifies `clients, `available
      ensures Valid() && forall s :: s in Slots(clients) <==> 0 <= s < |ok| && ok[s]
    {
      hide Partition, Slots;
      NoSlots();
      var i := 0;
      while i < startMinClients
        invariant 0 <= i <= startMinClients
        invariant Partition(clients, available, i) && inUse == {} && holders == multiset{}
        invariant forall s :: s in Slots(clients) <==> 0 <= s < i && ok[s]
      {
        if ok[i] {
          NewClient(clients, available, i, Client(i, i));
          clients := clients + [Client(i, i)];
        } else {
          NewSlot(clients, available, i);
          available := available + [i];
        }
        i := i + 1;
      }
      while i < maxClients
        invariant startMinClients <= i <= Capacity()
        invariant Partition(clients, available, i) && inUse == {} && holders == multiset{}
        invariant forall s :: s in Slots(clients) <==> 0 <= s < |ok| && ok[s]
      {
        NewSlot(clients, available, i);
        available := available + [i];
        i := i + 1;
      }
    }

    /** Below the maximum there is always a free slot. */
    lemma SlotFree()
      requires Valid() && |clients| < maxClients
      ensures available != []
    {
      EnoughSlots(clients, available, Capacity());
    }

    /** The common end of both ways to get a client. */
    method Take(slot: int, now: int)
      requires Valid() && slot !in inUse && slot in Slots(clients)
      modifies `active, `inUse, `holders
      ensures Valid() && inUse == old(inUse) + {slot} && active == old(active)[slot := now]
      ensures holders == old(holders) + multiset{slot} && slot !in old(holders)
    {
      hide Partition, Slots;
      active := active[slot := now];
      inUse := inUse + {slot};
      holders := holders + multiset{slot};
    }

    /** `acquire`: `newClient` names the client that would be set up, `ok` whether that works. */
    method Acquire(now: int, newClient: nat, ok: bool) returns (client: Option<Client>, index: int)
      requires Valid()
      modifies this
      ensures Valid() && minClients == old(minClients) && maxClients == old(maxClients)
      ensures index != -1 ==> index !in old(holders) && holders == old(holders) + multiset{index}
      ensures index != -1 ==> client.Some? && client.value in clients && client.value.poolIndex == index
      ensures index == -1 ==> holders == old(holders) && clients == old(clients) && available == old(available)
      ensures index == -1 <==> (forall c :: c in old(clients) ==> c.poolIndex in old(inUse))
                               && (|old(clients)| >= maxClients || !ok)
      ensures clients == old(clients) || (ok && clients == old(clients) + [Client(newClient, index)])
      ensures clients != old(clients) ==> forall c :: c in old(clients) ==> c.poolIndex in old(inUse)
      ensures clients != old(clients) ==> old(available) == available + [index]
      ensures index != -1 && clients == old(clients) ==> available == old(available)
      ensures index != -1 && clients == old(clients) ==>
        exists i :: FirstFree(clients, old(inUse), i) && clients[i].poolIndex == index
      ensures index != -1 ==> inUse == old(inUse) + {index} && active == old(active)[index := now]
      ensures index == -1 ==> inUse == old(inUse) && active == old(active)
    {
      hide Partition, Slots;
      client, index := None, -1;
      var i := 0;
      while i < |clients|
        invariant 0 <= i <= |clients| && index == -1 && unchanged(this)
        invariant forall k :: 0 <= k < i ==> clients[k].poolIndex in inUse
      {
        var slot := clients[i].poolIndex;
        if slot !in inUse {
          client, index := Some(clients[i]), slot;
          SlotOf(clients, i);
          SlotInRange(clients, available, Capacity(), i);
          assert FirstFree(clients, inUse, i);
          Take(slot, now);
          return;
        }
        i := i + 1;
      }
      if |clients| < maxClients {
        client := Some(Client(newClient, 0));
        if ok {
          SlotFree();
          var n := |available| - 1;
          var c := Client(newClient, available[n]);
          MoveSlot(clients, available, Capacity(), c);
          available := available[..n];
          clients := clients + [c];
          client, index := Some(c), c.poolIndex;
          Take(index, now);
        }
      }
    }

    /** `release`: a slot that nobody holds, such as the -1 of a failed `acquire`, changes nothing. */
    method Release(index: int)
      requires Valid()
      modifies `inUse, `holders
      ensures Valid() && holders == old(holders) - multiset{index} && inUse == old(inUse) - {index}
    {
      hide Partition, Slots;
      inUse := inUse - {index};
      holders := holders - multiset{index};
    }

    /** The loop of `clear` that finds and drops the client of one slot. */
    method Drop(slot: int) returns (c: Client)
      requires Valid() && slot in Slots(clients) && slot !in inUse
      modifies `clients, `available
      ensures Valid() && c in old(clients) && c.poolIndex == slot
      ensures clients == Without(old(clients), {slot}) && |clients| == |old(clients)| - 1
      ensures available == old(available) + [slot]
    {
      hide Partition, Without;
      PartitionDistinct(clients, available, Capacity());
      var j := 0;
      while clients[j].poolIndex != slot
        invariant 0 <= j < |clients| && slot in Slots(clients)[j..]
        decreases |clients| - j
      {
        j := j + 1;
      }
      c := clients[j];
      DropSlot(clients, available, Capacity(), j);
      WithoutOne(clients, j);
      OthersStay(clients, j);
      clients := clients[..j] + clients[j + 1..];
      available := available + [slot];
    }

    /** The loop of `clear` that lists the idle slots. */
    method ListIdle(now: int) returns (r: seq<int>)
      ensures r == IdleSlots(clients, active, inUse, now)
    {
      hide Slots;
      r := [];
      var i := 0;
      while i < |clients|
        invariant 0 <= i <= |clients| && r == IdleSlots(clients[..i], active, inUse, now)
      {
        var slot := clients[i].poolIndex;
        assert clients[..i + 1][..i] == clients[..i];
        if slot in active && now - active[slot] >= 3600 && slot !in inUse {
          r := r + [slot];
        }
        i := i + 1;
      }
      assert clients[..i] == clients;
    }

    /** How many idle clients `clear` drops: as many as it can without going below the minimum. */
    ghost function Droppable(now: int): (k: nat)
      reads this
      ensures k <= |IdleSlots(clients, active, inUse, now)| && k <= |clients|
      ensures |clients| - k >= minClients || k == 0
    {
      var idle := |IdleSlots(clients, active, inUse, now)|;
      if |clients| <= minClients then 0 else if idle <= |clients| - minClients then idle else |clients| - minClients
    }

    /** `clear`: no held client goes, and the idle ones go in order until the minimum is reached. */
    method Clear(now: int) returns (released: seq<Client>)
      requires Valid()
      modifies `clients, `available
      ensures Valid()
      ensures var gone := old(IdleSlots(clients, active, inUse, now)[..Droppable(now)]);
        clients == Without(old(clients), ToSet(gone)) && available == old(available) + gone
      ensures |clients| == |old(clients)| - old(Droppable(now))
      ensures forall c :: c in old(clients) && c.poolIndex in inUse ==> c in clients
      ensures forall c :: c in old(clients) && c !in clients ==>
        c.poolIndex in active && now - active[c.poolIndex] >= 3600 && c.poolIndex !in inUse
      ensures (exists c :: c in clients && c.poolIndex in active && now - active[c.poolIndex] >= 3600 && c.poolIndex !in inUse)
        ==> |clients| <= minClients
      ensures Slots(released) == old(IdleSlots(clients, active, inUse, now)[..Droppable(now)])
      ensures forall c :: c in released ==> c in old(clients)
    {
      hide Partition, Slots, IdleSlots, Without;
      released := [];
      ghost var was, av := clients, available;
      NothingGone(clients);
      if |clients| > minClients {
        var idle := ListIdle(now);
        PartitionDistinct(clients, available, Capacity());
        IdleDistinct(clients, active, inUse, now);
        released := DropAll(idle);
      }
      HeldStay(was, inUse, old(IdleSlots(clients, active, inUse, now)[..Droppable(now)]));
      OnlyIdleGone(was, active, inUse, now, old(Droppable(now)));
    }

    /** The second loop of `clear`. */
    method DropAll(idle: seq<int>) returns (released: seq<Client>)
      requires Valid() && |clients| > minClients && Different(idle)
      requires forall s :: s in idle ==> s !in inUse && s in Slots(clients)
      modifies `clients, `available
      ensures Valid()
      ensures var k := if |idle| <= |old(clients)| - minClients then |idle| else |old(clients)| - minClients;
        && clients == Without(old(clients), ToSet(idle[..k])) && available == old(available) + idle[..k]
        && |clients| == |old(clients)| - k && Slots(released) == idle[..k]
      ensures forall c :: c in released ==> c in old(clients)
    {
      hide Partition, Slots, Without, ToSet;
      ghost var was, av := clients, available;
      released := [];
      NothingGone(clients);
      assert idle[..0] == [];
      var i := 0;
      while i < |idle|
        invariant 0 <= i <= |idle| && Valid() && |clients| == |was| - i > minClients
        invariant clients == Without(was, ToSet(idle[..i])) && available == av + idle[..i]
        invariant forall s :: s in idle ==> s in Slots(was)
        invariant Slots(released) == idle[..i] && forall c :: c in released ==> c in was
      {
        assert idle[i] in idle;
        StillThere(was, idle, i);
        var c := Drop(idle[i]);
        released := released + [c];
        OneMoreGone(was, idle, i);
        i := i + 1;
        if |clients| <= minClients {
          break;
        }
      }
    }

    /** Any run: whatever is called in whatever order, slots stay shared out and no slot has two holders. */
    method Run(calls: seq<Call>)
      requires Valid()
      modifies this
      ensures Valid() && (forall s :: holders[s] <= 1)
      ensures maxClients == old(maxClients) && (|clients| < maxClients ==> available != [])
    {
      hide Valid, Droppable, IdleSlots, Without, ToSet;
      var i := 0;
      while i < |calls|
        invariant 0 <= i <= |calls| && Valid() && maxClients == old(maxClients)
      {
        match calls[i] {
          case Acquire(now, id, ok) =>
            var client, index := Acquire(now, id, ok);
          case Release(slot) =>
            Release(slot);
          case Clear(now) =>
            var released := Clear(now);
        }
        i := i + 1;
      }
      OneHolder();
      if |clients| < maxClients {
        SlotFree();
      }
    }

    lemma OneHolder()
      requires Valid()
      ensures forall s :: holders[s] <= 1
    {
    }
  }

  /** Taking a client's slot back keeps the partition. */
  lemma DropSlot(cs: seq<Client>, av: seq<int>, n: nat, j: nat)
    requires Partition(cs, av, n) && j < |cs|
    ensures Partition(cs[..j] + cs[j + 1..], av + [cs[j].poolIndex], n)
  {
    var s := cs[j].poolIndex;
    assert Slots(cs) == Slots(cs[..j]) + [s] + Slots(cs[j + 1..]);
    assert Slots(cs[..j] + cs[j + 1..]) == Slots(cs[..j]) + Slots(cs[j + 1..]);
  }

  lemma PartitionDistinct(cs: seq<Client>, av: seq<int>, n: nat)
    requires Partition(cs, av, n)
    ensures DistinctSlots(cs)
  {
    forall i, j | 0 <= i < j < |cs| ensures cs[i].poolIndex != cs[j].poolIndex {
      if cs[i].poolIndex == cs[j].poolIndex {
        CountedTwice(Slots(cs), multiset(av), i, j);
      }
    }
  }

  lemma CountedTwice(r: seq<int>, m: multiset<int>, i: nat, j: nat)
    requires i < j < |r| && r[i] == r[j]
    ensures (multiset(r) + m)[r[i]] >= 2
  {
    assert r == r[..i] + [r[i]] + r[i + 1..j] + [r[j]] + r[j + 1..];
  }

  lemma SlotOf(cs: seq<Client>, i: nat)
    requires i < |cs|
    ensures cs[i].poolIndex in Slots(cs)
  {
    assert Slots(cs)[i] == cs[i].poolIndex;
  }

  lemma SlotInRange(cs: seq<Client>, av: seq<int>, n: nat, i: nat)
    requires Partition(cs, av, n) && i < |cs|
    ensures 0 <= cs[i].poolIndex < n
  {
    var s := cs[i].poolIndex;
    assert s == Slots(cs)[i];
    assert s in multiset(Slots(cs));
    assert (multiset(Slots(cs)) + multiset(av))[s] >= 1;
  }

  /** A free slot belongs to no client; giving it to one keeps the partition. */
  lemma MoveSlot(cs: seq<Client>, av: seq<int>, n: nat, c: Client)
    requires Partition(cs, av, n)
    requires av != [] && c.poolIndex == av[|av| - 1]
    ensures Partition(cs + [c], av[..|av| - 1], n)
    ensures c.poolIndex !in Slots(cs) && 0 <= c.poolIndex < n
    ensures forall s :: s in Slots(cs) ==> s in Slots(cs + [c])
    ensures c.poolIndex in Slots(cs + [c])
  {
    var s := c.poolIndex;
    assert Slots(cs + [c]) == Slots(cs) + [s];
    assert av == av[..|av| - 1] + [s];
    assert multiset(av)[s] >= 1;
    assert (multiset(Slots(cs)) + multiset(av))[s] == Upto(n)[s];
    assert s in Slots(cs) ==> multiset(Slots(cs))[s] >= 1;
  }

  lemma HeldStay(was: seq<Client>, inUse: set<int>, gone: seq<int>)
    requires forall s :: s in gone ==> s !in inUse
    ensures forall c :: c in was && c.poolIndex in inUse ==> c in Without(was, ToSet(gone))
  {
  }

  lemma NothingGone(cs: seq<Client>)
    ensures Without(cs, ToSet([])) == cs
  {
    WithoutNone(cs, ToSet([]));
  }

  lemma OthersStay(cs: seq<Client>, j: nat)
    requires j < |cs|
    ensures forall s :: s in Slots(cs) && s != cs[j].poolIndex ==> s in Slots(cs[..j] + cs[j + 1..])
  {
    var r := cs[..j] + cs[j + 1..];
    forall s | s in Slots(cs) && s != cs[j].poolIndex ensures s in Slots(r) {
      var i :| 0 <= i < |cs| && Slots(cs)[i] == s;
      assert Slots(r)[if i < j then i else i - 1] == s;
    }
  }

  lemma StillThere(was: seq<Client>, idle: seq<int>, i: nat)
    requires i < |idle| && idle[i] in Slots(was) && Different(idle)
    ensures idle[i] in Slots(Without(was, ToSet(idle[..i])))
  {
    var j :| 0 <= j < |was| && Slots(was)[j] == idle[i];
    assert idle[i] !in idle[..i];
    var r := Without(was, ToSet(idle[..i]));
    assert was[j] in r;
    var k :| 0 <= k < |r| && r[k] == was[j];
    assert Slots(r)[k] == idle[i];
  }

  lemma OneMoreGone(was: seq<Client>, idle: seq<int>, i: nat)
    requires i < |idle|
    ensures Without(Without(was, ToSet(idle[..i])), {idle[i]}) == Without(was, ToSet(idle[..i + 1]))
  {
    WithoutTwice(was, ToSet(idle[..i]), {idle[i]});
    assert idle[..i + 1] == idle[..i] + [idle[i]];
    assert ToSet(idle[..i + 1]) == ToSet(idle[..i]) + {idle[i]};
  }
}
