/** What each step leaves in the cache, entry by entry, and what each state does to a packet. */
module EntryStates {
  import opened Addresses
  import opened BitStrings
  import opened KeySets
  import opened MapCache
  import opened TrieNodes

  // ---- what a step leaves ----

  lemma {:induction false} UpdateLeaves(m: Cache, x: Key, e: Entry)
    ensures x in m && m[x].state == Static ==> Update(m, x, e) == m
    ensures !(x in m && m[x].state == Static) ==> Update(m, x, e) == m[x := e]
  {
  }

  lemma {:induction false} InstallLeaves(m: Cache, x: Key, addr: Rloc)
    ensures x in m && m[x].state == Static ==> Next(m, Install(x, addr)) == m
    ensures !(x in m && m[x].state == Static) ==> Next(m, Install(x, addr)) == m[x := Entry(Static, 0, addr)]
  {
  }

  lemma {:induction false} QueryLeaves(m: Cache, x: Key, ttl: int, addr: Rloc)
    ensures x in m && m[x].state == Static ==> Next(m, Query(x, ttl, addr)) == m
    ensures !(x in m && m[x].state == Static) ==> Next(m, Query(x, ttl, addr)) == m[x := Entry(Queried, ttl, addr)]
  {
  }

  lemma {:induction false} DenyLeaves(m: Cache, x: Key, act: Action)
    ensures x in m && m[x].state == Static ==> Next(m, Deny(x, act)) == m
    ensures act in {NoAction, SendRequest, Unknown} ==> Next(m, Deny(x, act)) == m
    ensures !(x in m && m[x].state == Static) && act == Native ==>
              Next(m, Deny(x, act)) == m[x := Entry(Negative, 60, Unset)]
    ensures !(x in m && m[x].state == Static) && act == DropPackets ==>
              Next(m, Deny(x, act)) == m[x := Entry(Drop, 60, Unset)]
  {
  }

  // a reply without a match is entered; one with a match sets the time of that to 60, and nothing else
  lemma {:induction false} ReplyLeaves(m: Cache, x: Key, ttl: int, addr: Rloc, b: Key)
    ensures (forall k | k in m :: !Covers(k, x)) ==> Next(m, Reply(x, ttl, addr)) == m[x := Entry(Active, ttl, addr)]
    ensures IsLongest(m, x, b) ==> Next(m, Reply(x, ttl, addr)) == m[b := Entry(m[b].state, 60, m[b].addr)]
  {
    BestIsLongest(m, x);
    if forall k | k in m :: !Covers(k, x) {
      assert Covers(x, x);
    }
  }

  lemma {:induction false} UninstallLeaves(m: Cache, x: Key, b: Key)
    ensures (forall k | k in m :: !Covers(k, x)) ==> Next(m, Uninstall(x)) == m
    ensures IsLongest(m, x, b) && m[b].state in {Active, Queried} ==> Next(m, Uninstall(x)) == m
    ensures IsLongest(m, x, b) && m[b].state in {Static, Negative, Drop} ==>
              Next(m, Uninstall(x)) == map k | k in m && k != b :: m[k]
  {
    BestIsLongest(m, x);
  }

  // the deletion of maptable.c, which looks at no state
  lemma {:induction false} DeletionLeaves(m: Cache, x: Key, b: Key)
    ensures (forall k | k in m :: !Covers(k, x)) ==> Deleted(m, x) == m
    ensures IsLongest(m, x, b) ==> Deleted(m, x) == map k | k in m && k != b :: m[k]
  {
    BestIsLongest(m, x);
  }

  // a sweep takes ten seconds from each entry that no static one covers, and with them those that have no more
  lemma {:induction false} SweepLeaves(m: Cache, k: Key)
    ensures k !in m ==> k !in Next(m, Sweep)
    ensures k in m && (exists p | p in m :: m[p].state == Static && Covers(p, k)) ==>
              k in Next(m, Sweep) && Next(m, Sweep)[k] == m[k]
    ensures k in m && (forall p | p in m && m[p].state == Static :: !Covers(p, k)) ==>
              (k in Next(m, Sweep) <==> m[k].ttl - 10 > 0)
    ensures k in Next(m, Sweep) && (forall p | p in m && m[p].state == Static :: !Covers(p, k)) ==>
              Next(m, Sweep)[k] == Entry(m[k].state, m[k].ttl - 10, m[k].addr)
  {
  }

  // ---- static entries, from their installation on ----

  lemma RunCons(m: Cache, s: Step, steps: seq<Step>)
    ensures Run(m, [s] + steps) == Run(Next(m, s), steps)
  {
    assert ([s] + steps)[1..] == steps;
  }

  /** Over any run from its installation on, a static entry is there, with state, address and time as installed, until
      an uninstall finds it. */
  lemma {:induction false} InstallRun(m: Cache, x: Key, addr: Rloc, steps: seq<Step>)
    requires !(x in m && m[x].state == Static) && Spared(Next(m, Install(x, addr)), steps, x)
    ensures x in Run(m, [Install(x, addr)] + steps)
    ensures Run(m, [Install(x, addr)] + steps)[x].state == Static
    ensures Run(m, [Install(x, addr)] + steps)[x].addr == addr
  {
    RunCons(m, Install(x, addr), steps);
    StaticRun(Next(m, Install(x, addr)), steps, x, addr);
  }

  // ---- how long a denial lives ----

  /** A prefix denied to the native net or dropped, and left alone since, is gone with the sixth sweep, not before. */
  lemma {:induction false} DenyLife(m: Cache, x: Key, act: Action, steps: seq<Step>)
    requires !(x in m && m[x].state == Static) && act in {Native, DropPackets}
    requires Quiet(Next(m, Deny(x, act)), steps, x)
    ensures x in Run(m, [Deny(x, act)] + steps) <==> Sweeps(steps) < 6
  {
    RunCons(m, Deny(x, act), steps);
    Expiry(Next(m, Deny(x, act)), steps, x);
  }

  // ---- what a state does to a packet ----

  /** The verdict on a packet, by the state of the longest prefix that covers its destination. */
  lemma {:induction false} ForwardStates(m: Cache, dst: Key, b: Key)
    requires IsLongest(m, dst, b)
    ensures m[b].state in {Active, Static} ==> Forward(m, dst) == Encapsulate(m[b].addr)
    ensures m[b].state in {Negative, Queried} ==> Forward(m, dst) == SendNatively
    ensures m[b].state == Drop ==> Forward(m, dst) == Discard
  {
    BestIsLongest(m, dst);
  }

  lemma {:induction false} ForwardMiss(m: Cache, dst: Key)
    requires forall k | k in m :: !Covers(k, dst)
    ensures Forward(m, dst) == SendNatively
  {
    BestIsLongest(m, dst);
  }

  /** Over any run from its installation on that spares it, a static entry takes the packets whose longest match it is
      to the address it was installed with. */
  lemma {:induction false} InstallForward(m: Cache, x: Key, addr: Rloc, steps: seq<Step>, dst: Key)
    requires !(x in m && m[x].state == Static) && Spared(Next(m, Install(x, addr)), steps, x)
    requires IsLongest(Run(m, [Install(x, addr)] + steps), dst, x)
    ensures Forward(Run(m, [Install(x, addr)] + steps), dst) == Encapsulate(addr)
  {
    InstallRun(m, x, addr, steps);
    ForwardStates(Run(m, [Install(x, addr)] + steps), dst, x);
  }

  lemma {:induction false} StaticForward(m: Cache, steps: seq<Step>, k: Key, addr: Rloc, dst: Key)
    requires k in m && m[k].state == Static && m[k].addr == addr
    requires Spared(m, steps, k) && IsLongest(Run(m, steps), dst, k)
    ensures Forward(Run(m, steps), dst) == Encapsulate(addr)
  {
    StaticRun(m, steps, k, addr);
    ForwardStates(Run(m, steps), dst, k);
  }

  /** A destination denied by a record that covers it, where no longer prefix does, is sent natively or dropped, by the
      action of the record. */
  lemma {:induction false} DenyForward(m: Cache, p: Key, act: Action, dst: Key)
    requires !(p in m && m[p].state == Static) && Covers(p, dst)
    requires forall k | k in m && Covers(k, dst) :: Covers(k, p)
    ensures act == Native ==> Forward(Next(m, Deny(p, act)), dst) == SendNatively
    ensures act == DropPackets ==> Forward(Next(m, Deny(p, act)), dst) == Discard
  {
    if act in {Native, DropPackets} {
      assert Covers(p, p);
      ForwardStates(Next(m, Deny(p, act)), dst, p);
    }
  }
}
