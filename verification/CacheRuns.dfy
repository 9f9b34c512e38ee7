/** Runs of calls on the map table in memory: they are the runs of steps of the flat cache. */
module CacheRuns {
  import opened Addresses
  import opened MapCache
  import opened MapSweep
  import opened MapTable
  import opened TrieNodes

  // the prefix of a call, as it stands in a variable of the caller's
  datatype Where = Where(family: Family, addr: Addr, bitlen: nat)

  // a call and the step that it takes; the place of a sweep does not matter
  datatype Call = Call(w: Where, step: Step)

  ghost predicate WellMade(c: Call) {
    c.step.Sweep? || (c.w.bitlen <= MaxLen(c.w.family) && c.step.x == Cut(c.w.addr, c.w.bitlen))
  }

  ghost function StepsFor(calls: seq<Call>): (steps: seq<Step>) {
    seq(|calls|, i requires 0 <= i < |calls| => calls[i].step)
  }

  method PerformOn(t: Table, c: Call, prefix: Prefix)
    requires t.Valid() && !c.step.Sweep? && prefix.Ok() && prefix.key == c.step.x
    modifies t`content, t.content.Values`ttl, prefix`refCount, t.tree`head, t.tree`nodes, t.tree`numActive
    modifies t.tree.nodes.Values`l, t.tree.nodes.Values`r, t.tree.nodes.Values`parent
    modifies t.tree.nodes.Values`prefix, t.tree.nodes.Values`data, t.tree.Held()`refCount
    ensures t.Valid() && t.Entries() == Next(old(t.Entries()), c.step) && t.Grown(prefix)
  {
    match c.step {
      case Query(_, ttl, addr) => t.InstallQueried(prefix, ttl, addr);
      case Install(_, addr) => var route := t.InstallStatic(prefix, addr);
      case Uninstall(_) => {
        var ok := t.UninstallStatic(prefix);
        t.ShrunkGrown();
      }
      case Reply(_, ttl, addr) => var done := t.ReplyRecord(prefix, ttl, addr);
      case Deny(_, act) => t.DenyRecord(prefix, act);
    }
  }

  method Perform(t: Table, c: Call)
    requires t.Valid() && WellMade(c)
    modifies t`content, t.content.Values`ttl, t.tree`head, t.tree`nodes, t.tree`numActive
    modifies t.tree.nodes.Values`l, t.tree.nodes.Values`r, t.tree.nodes.Values`parent
    modifies t.tree.nodes.Values`prefix, t.tree.nodes.Values`data, t.tree.Held()`refCount
    ensures t.Valid() && t.Entries() == Next(old(t.Entries()), c.step) && t.Grown(null)
  {
    if c.step.Sweep? {
      SweepTable(t);
    } else {
      var prefix := new Prefix.Static(c.w.family, c.w.addr, c.w.bitlen);
      PerformOn(t, c, prefix);
    }
  }

  /** Any run of calls takes the table through the run of their steps. */
  method PerformAll(t: Table, calls: seq<Call>)
    requires t.Valid() && forall c | c in calls :: WellMade(c)
    modifies t`content, t.content.Values`ttl, t.tree`head, t.tree`nodes, t.tree`numActive
    modifies t.tree.nodes.Values`l, t.tree.nodes.Values`r, t.tree.nodes.Values`parent
    modifies t.tree.nodes.Values`prefix, t.tree.nodes.Values`data, t.tree.Held()`refCount
    ensures t.Valid() && t.Entries() == Run(old(t.Entries()), StepsFor(calls))
    decreases |calls|
  {
    if calls != [] {
      StepsHead(calls);
      Perform(t, calls[0]);
      PerformAll(t, calls[1..]);
    }
  }

  lemma StepsHead(calls: seq<Call>)
    requires calls != [] && forall c | c in calls :: WellMade(c)
    ensures WellMade(calls[0]) && forall c | c in calls[1..] :: WellMade(c)
    ensures forall m :: Run(m, StepsFor(calls)) == Run(Next(m, calls[0].step), StepsFor(calls[1..]))
  {
    assert calls[0] in calls && forall c | c in calls[1..] :: c in calls;
    assert StepsFor(calls)[1..] == StepsFor(calls[1..]);
  }

  /** From the empty table, any run of calls: the cache reached is the flat one, and the trie that holds it is sound. */
  method RunFromEmpty(calls: seq<Call>) returns (t: Table)
    requires forall c | c in calls :: WellMade(c)
    ensures t.Valid() && t.Entries() == Run(map[], StepsFor(calls))
  {
    t := new Table();
    PerformAll(t, calls);
  }
}
