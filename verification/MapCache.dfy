/** The map cache as a flat map from prefixes to entries, its steps, and what holds over all runs of them. */
module MapCache {
  import opened Addresses
  import opened BitStrings
  import opened KeySets
  import opened TrieNodes

  datatype Option<T> = None | Some(value: T)

  datatype State = Active | Negative | Drop | Queried | Static

  // a locator address; the port is always the LISP data port
  datatype Rloc = Unset | Rloc(family: Family, addr: Addr)

  datatype Entry = Entry(state: State, ttl: int, addr: Rloc)

  type Cache = map<Key, Entry>

  const TTL_DEFAULT := 60
  const TTL_CHECK_INTERVAL := 10

  function At(m: Cache, k: Key): Option<Entry> {
    if k in m then Some(m[k]) else None
  }

  // ---- longest-prefix match ----

  ghost predicate IsLongest(m: Cache, x: Key, b: Key) {
    b in m && Covers(b, x) && forall k | k in m && Covers(k, x) :: Covers(k, b)
  }

  // by dropping bits from the end until an entry is met
  function Best(m: Cache, x: Key): (b: Link)
    ensures b.To? ==> b.k in m
    decreases |x.s|
  {
    if x in m then To(x) else if x.s == [] then Nil else Best(m, Key(x.s[..|x.s| - 1]))
  }

  lemma DropBit(k: Key, x: Key)
    requires x.s != [] && k != x
    ensures Covers(k, x) <==> Covers(k, Key(x.s[..|x.s| - 1]))
  {
    var y := Key(x.s[..|x.s| - 1]);
    if |k.s| <= |y.s| {
      assert x.s[..|k.s|] == y.s[..|k.s|];
    } else if |k.s| == |x.s| {
      assert Covers(k, x) ==> k.s == x.s;
    }
  }

  lemma {:induction false} BestIsLongest(m: Cache, x: Key)
    ensures Best(m, x) == Nil ==> forall k | k in m :: !Covers(k, x)
    ensures forall b :: Best(m, x) == To(b) <==> IsLongest(m, x, b)
    decreases |x.s|
  {
    if x in m {
      forall b ensures b == x <==> IsLongest(m, x, b) {
        if IsLongest(m, x, b) { SameLength(x, b); }
      }
    } else if x.s != [] {
      var y := Key(x.s[..|x.s| - 1]);
      BestIsLongest(m, y);
      forall k | k in m ensures Covers(k, x) <==> Covers(k, y) {
        DropBit(k, x);
      }
      forall b ensures IsLongest(m, x, b) <==> IsLongest(m, y, b) {
      }
    } else {
      forall k | k in m ensures !Covers(k, x) {
        assert k.s == x.s ==> k == x;
      }
    }
  }

  // ---- the steps ----

  predicate Fixed(m: Cache, k: Key) {
    k in m && m[k].state == Static
  }

  // a static entry is never replaced
  function Update(m: Cache, k: Key, e: Entry): Cache {
    if Fixed(m, k) then m else m[k := e]
  }

  function Deleted(m: Cache, x: Key): Cache {
    match Best(m, x)
    case Nil => m
    case To(b) => m - {b}
  }

  function Uninstalled(m: Cache, x: Key): Cache {
    match Best(m, x)
    case Nil => m
    case To(b) => if m[b].state == Active || m[b].state == Queried then m else Deleted(m, x)
  }

  // what an uninstall accepts: any entry but an active or a queried one
  predicate Removable(m: Cache, x: Key) {
    Best(m, x).To? && m[Best(m, x).k].state != Active && m[Best(m, x).k].state != Queried
  }

  lemma {:induction false} RemovableRemoves(m: Cache, x: Key)
    ensures Uninstalled(m, x) != m <==> Removable(m, x)
  {
    if Removable(m, x) { assert Best(m, x).k !in Uninstalled(m, x); }
  }

  // what a record with locators does: the best match, whatever its state, is kept alive
  function Replied(m: Cache, x: Key, ttl: int, addr: Rloc): Cache {
    match Best(m, x)
    case Nil => Update(m, x, Entry(Active, ttl, addr))
    case To(b) => m[b := m[b].(ttl := TTL_DEFAULT)]
  }

  // the action of a record without locators
  datatype Action = NoAction | Native | SendRequest | DropPackets | Unknown

  function Denied(m: Cache, x: Key, act: Action): Cache {
    match act
    case Native => Update(m, x, Entry(Negative, TTL_DEFAULT, Unset))
    case DropPackets => Update(m, x, Entry(Drop, TTL_DEFAULT, Unset))
    case _ => m
  }

  // k is static, or lies under a static entry, where the sweep does not go
  ghost predicate Exempt(m: Cache, k: Key) {
    exists p | p in m :: m[p].state == Static && Covers(p, k)
  }

  // one sweep: all entries at once
  ghost function Swept(m: Cache): Cache {
    map k | k in m && (Exempt(m, k) || m[k].ttl - TTL_CHECK_INTERVAL > 0) ::
      if Exempt(m, k) then m[k] else m[k].(ttl := m[k].ttl - TTL_CHECK_INTERVAL)
  }

  datatype Step =
    | Query(x: Key, ttl: int, addr: Rloc)    // a packet without a match; ttl and address are not initialised
    | Install(x: Key, addr: Rloc)
    | Uninstall(x: Key)
    | Reply(x: Key, ttl: int, addr: Rloc)
    | Deny(x: Key, act: Action)
    | Sweep

  ghost function Next(m: Cache, s: Step): Cache {
    match s
    case Query(x, ttl, addr) => Update(m, x, Entry(Queried, ttl, addr))
    case Install(x, addr) => Update(m, x, Entry(Static, 0, addr))
    case Uninstall(x) => Uninstalled(m, x)
    case Reply(x, ttl, addr) => Replied(m, x, ttl, addr)
    case Deny(x, act) => Denied(m, x, act)
    case Sweep => Swept(m)
  }

  ghost function Run(m: Cache, steps: seq<Step>): Cache
    decreases |steps|
  {
    if steps == [] then m else Run(Next(m, steps[0]), steps[1..])
  }

  // ---- the records of one reply ----

  ghost predicate Refreshes(m: Cache, s: Step) {
    s.Reply? && Best(m, s.x) != Nil
  }

  // the records are applied in turn, up to and including the first whose prefix has a match already
  ghost function Replies(m: Cache, steps: seq<Step>): Cache
    decreases |steps|
  {
    if steps == [] then m
    else if Refreshes(m, steps[0]) then Next(m, steps[0])
    else Replies(Next(m, steps[0]), steps[1..])
  }

  ghost function Applied(m: Cache, steps: seq<Step>): (n: nat)
    ensures n <= |steps|
    decreases |steps|
  {
    if steps == [] then 0
    else if Refreshes(m, steps[0]) then 1
    else 1 + Applied(Next(m, steps[0]), steps[1..])
  }

  // n of the records are applied: no match for the prefix of any but the last, and one for that if it is not the last
  ghost predicate StopsAt(m: Cache, steps: seq<Step>, n: nat) {
    && n <= |steps|
    && (forall i, k | 0 <= i < n - 1 && steps[i].Reply? && k in Run(m, steps[..i]) :: !Covers(k, steps[i].x))
    && (n < |steps| ==> n > 0 && steps[n - 1].Reply?)
    && (0 < n < |steps| ==>
          var before, x := Run(m, steps[..n - 1]), steps[n - 1].x;
          exists k | k in before :: Covers(k, x))
  }

  lemma {:induction false} RefreshesExactly(m: Cache, s: Step)
    ensures Refreshes(m, s) <==> s.Reply? && exists k | k in m :: Covers(k, s.x)
  {
    if s.Reply? { BestIsLongest(m, s.x); }
  }

  lemma RunMore(m: Cache, s: Step, rest: seq<Step>, i: nat)
    requires i <= |rest|
    ensures Run(m, ([s] + rest)[..i + 1]) == Run(Next(m, s), rest[..i])
  {
    assert ([s] + rest)[..i + 1][1..] == rest[..i];
  }

  lemma {:induction false} StopsMore(m: Cache, s: Step, rest: seq<Step>, a: nat)
    requires StopsAt(Next(m, s), rest, a) && !Refreshes(m, s)
    ensures StopsAt(m, [s] + rest, a + 1)
  {
    var steps := [s] + rest;
    RefreshesExactly(m, s);
    forall i, k | 0 <= i < a && steps[i].Reply? && k in Run(m, steps[..i]) ensures !Covers(k, steps[i].x) {
      if i > 0 { RunMore(m, s, rest, i - 1); }
    }
    if 0 < a < |rest| { RunMore(m, s, rest, a - 1); }
  }

  lemma {:induction false} StopsFirst(m: Cache, s: Step, rest: seq<Step>)
    requires Refreshes(m, s)
    ensures StopsAt(m, [s] + rest, 1)
  {
    var steps := [s] + rest;
    RefreshesExactly(m, s);
    var k :| k in m && Covers(k, s.x);
    assert steps[..0] == [] && k in Run(m, steps[..0]) && Covers(k, steps[0].x);
  }

  lemma {:induction false} AppliedStops(m: Cache, steps: seq<Step>)
    ensures Replies(m, steps) == Run(m, steps[..Applied(m, steps)])
    ensures StopsAt(m, steps, Applied(m, steps))
    decreases |steps|
  {
    if steps != [] {
      var s, rest := steps[0], steps[1..];
      assert steps == [s] + rest;
      RunMore(m, s, rest, Applied(m, steps) - 1);
      if Refreshes(m, s) {
        StopsFirst(m, s, rest);
      } else {
        AppliedStops(Next(m, s), rest);
        StopsMore(m, s, rest, Applied(Next(m, s), rest));
      }
    }
  }

  lemma {:induction false} StopsOnce(m: Cache, steps: seq<Step>, a: nat, b: nat)
    requires StopsAt(m, steps, a) && StopsAt(m, steps, b)
    ensures a <= b
  {
  }

  /** A reply is the run of its first records. Records are left over if and only if the prefix of one has a match
      already; that one is the last to be applied. */
  lemma {:induction false} RepliesRun(m: Cache, steps: seq<Step>, n: nat)
    ensures StopsAt(m, steps, n) <==> n == Applied(m, steps)
    ensures StopsAt(m, steps, n) ==> Replies(m, steps) == Run(m, steps[..n])
  {
    var a := Applied(m, steps);
    AppliedStops(m, steps);
    if StopsAt(m, steps, n) {
      StopsOnce(m, steps, a, n);
      StopsOnce(m, steps, n, a);
    }
  }

  // ---- static entries are safe ----

  ghost predicate StaticAt(m: Cache, k: Key, addr: Rloc) {
    k in m && m[k].state == Static && m[k].addr == addr
  }

  // the step is an uninstall whose longest match is k
  ghost predicate Removes(m: Cache, s: Step, k: Key) {
    s.Uninstall? && IsLongest(m, s.x, k)
  }

  lemma {:induction false} StaticStep(m: Cache, s: Step, k: Key, addr: Rloc)
    requires StaticAt(m, k, addr)
    ensures StaticAt(Next(m, s), k, addr) <==> !Removes(m, s, k)
    ensures Removes(m, s, k) ==> Next(m, s) == m - {k}
  {
    match s {
      case Uninstall(x) => BestIsLongest(m, x);
      case Reply(x, ttl, a) => BestIsLongest(m, x);
      case Sweep => assert Exempt(m, k);
      case _ =>
    }
  }

  // no step of the run uninstalls k
  ghost predicate Spared(m: Cache, steps: seq<Step>, k: Key)
    decreases |steps|
  {
    steps == [] || (!Removes(m, steps[0], k) && Spared(Next(m, steps[0]), steps[1..], k))
  }

  /** Over any run, a static entry keeps its state and its address until an uninstall finds it. */
  lemma {:induction false} StaticRun(m: Cache, steps: seq<Step>, k: Key, addr: Rloc)
    requires StaticAt(m, k, addr) && Spared(m, steps, k)
    ensures StaticAt(Run(m, steps), k, addr)
    decreases |steps|
  {
    if steps != [] {
      StaticStep(m, steps[0], k, addr);
      StaticRun(Next(m, steps[0]), steps[1..], k, addr);
    }
  }

  // an uninstall removes the longest match, if that is neither active nor queried, and nothing else
  lemma {:induction false} UninstallExact(m: Cache, x: Key, k: Key)
    ensures k in m && k !in Next(m, Uninstall(x)) <==> IsLongest(m, x, k) && m[k].state !in {Active, Queried}
    ensures k in Next(m, Uninstall(x)) ==> At(Next(m, Uninstall(x)), k) == At(m, k)
  {
    BestIsLongest(m, x);
  }

  // ---- which entry a step touches ----

  function Target(m: Cache, s: Step): Link {
    match s
    case Query(x, _, _) => To(x)
    case Install(x, _) => To(x)
    case Uninstall(x) => Best(m, x)
    case Reply(x, _, _) => if Best(m, x) == Nil then To(x) else Best(m, x)
    case Deny(x, _) => To(x)
    case Sweep => Nil
  }

  lemma {:induction false} OnlyTarget(m: Cache, s: Step, k: Key)
    requires !s.Sweep? && Target(m, s) != To(k)
    ensures At(Next(m, s), k) == At(m, k)
  {
  }

  // ---- how long an entry lives ----

  function Sweeps(steps: seq<Step>): nat {
    if steps == [] then 0 else (if steps[0].Sweep? then 1 else 0) + Sweeps(steps[1..])
  }

  // k is neither refreshed nor replaced nor exempt; all that happens to it are sweeps
  ghost predicate Quiet(m: Cache, steps: seq<Step>, k: Key)
    decreases |steps|
  {
    steps != [] ==>
      && (steps[0].Sweep? || At(Next(m, steps[0]), k) == At(m, k))
      && (k in m ==> !Exempt(m, k))
      && Quiet(Next(m, steps[0]), steps[1..], k)
  }

  // no step but the sweep has k as its target, and k is not exempt
  ghost predicate Untargeted(m: Cache, steps: seq<Step>, k: Key)
    decreases |steps|
  {
    steps != [] ==>
      && (steps[0].Sweep? || Target(m, steps[0]) != To(k))
      && (k in m ==> !Exempt(m, k))
      && Untargeted(Next(m, steps[0]), steps[1..], k)
  }

  lemma {:induction false} UntargetedQuiet(m: Cache, steps: seq<Step>, k: Key)
    requires Untargeted(m, steps, k)
    ensures Quiet(m, steps, k)
    decreases |steps|
  {
    if steps != [] {
      if !steps[0].Sweep? { OnlyTarget(m, steps[0], k); }
      UntargetedQuiet(Next(m, steps[0]), steps[1..], k);
    }
  }

  /** An entry that is left alone is there until the sweeps, ten seconds each, have used up its time; there is always
      a sweep that removes it. */
  lemma {:induction false} Expiry(m: Cache, steps: seq<Step>, k: Key)
    requires k in m && Quiet(m, steps, k)
    ensures k in Run(m, steps) <==> Sweeps(steps) == 0 || m[k].ttl - 10 * Sweeps(steps) > 0
    ensures k in Run(m, steps) ==> Run(m, steps)[k] == Entry(m[k].state, m[k].ttl - 10 * Sweeps(steps), m[k].addr)
    decreases |steps|
  {
    if steps != [] {
      var n := Next(m, steps[0]);
      if k in n {
        Expiry(n, steps[1..], k);
      } else {
        GoneStays(n, steps[1..], k);
      }
    }
  }

  lemma {:induction false} GoneStays(m: Cache, steps: seq<Step>, k: Key)
    requires k !in m && Quiet(m, steps, k)
    ensures k !in Run(m, steps)
    decreases |steps|
  {
    if steps != [] { GoneStays(Next(m, steps[0]), steps[1..], k); }
  }

  // ---- forwarding ----

  datatype Verdict = Encapsulate(to: Rloc) | SendNatively | Discard

  function Decide(e: Option<Entry>): Verdict {
    if e == None || e.value.state == Negative || e.value.state == Queried then SendNatively
    else if e.value.state == Active || e.value.state == Static then Encapsulate(e.value.addr)
    else Discard
  }

  function Match(m: Cache, x: Key): Option<Entry> {
    match Best(m, x)
    case Nil => None
    case To(b) => At(m, b)
  }

  function Forward(m: Cache, dst: Key): Verdict {
    Decide(Match(m, dst))
  }

  // longest-prefix match over a list: the first of the longest entries that cover x
  function Scan(list: seq<(Key, Entry)>, x: Key): Option<(Key, Entry)> {
    if list == [] then None
    else
      var rest := Scan(list[1..], x);
      if Covers(list[0].0, x) && (rest == None || |rest.value.0.s| <= |list[0].0.s|) then Some(list[0]) else rest
  }

  lemma {:induction false} ScanLongest(list: seq<(Key, Entry)>, x: Key)
    ensures Scan(list, x) == None <==> forall e | e in list :: !Covers(e.0, x)
    ensures Scan(list, x) != None ==> Scan(list, x).value in list && Covers(Scan(list, x).value.0, x)
    ensures Scan(list, x) != None ==> forall e | e in list && Covers(e.0, x) :: |e.0.s| <= |Scan(list, x).value.0.s|
  {
    if list != [] {
      ScanLongest(list[1..], x);
      assert forall e | e in list :: e == list[0] || e in list[1..];
    }
  }

  /** The verdict on a packet is that of longest-prefix match over any list of the entries. */
  lemma {:induction false} ForwardScan(m: Cache, list: seq<(Key, Entry)>, dst: Key)
    requires forall k, e :: (k, e) in list <==> k in m && m[k] == e
    ensures Forward(m, dst) == Decide(match Scan(list, dst) case None => None case Some(e) => Some(e.1))
  {
    BestIsLongest(m, dst);
    ScanLongest(list, dst);
    match Best(m, dst)
    case Nil =>
      forall e | e in list ensures !Covers(e.0, dst) {
        assert (e.0, e.1) in list;
      }
    case To(b) =>
      assert (b, m[b]) in list;
      var e := Scan(list, dst).value;
      assert (e.0, e.1) in list;
      SameLength(e.0, b);
  }

  // ---- misses and replies ----

  /** Installing a queried entry for a destination without a match changes no verdict. */
  lemma {:induction false} MissForward(m: Cache, dst: Key, ttl: int, addr: Rloc, x: Key)
    requires Best(m, dst) == Nil
    ensures Forward(Next(m, Query(dst, ttl, addr)), x) == Forward(m, x)
  {
    var n := Next(m, Query(dst, ttl, addr));
    BestIsLongest(m, dst);
    BestIsLongest(m, x);
    BestIsLongest(n, x);
    var b := Best(n, x);
    if b.To? && b.k != dst {
      assert IsLongest(m, x, b.k);
    } else if b == To(dst) {
      forall k | k in m ensures !Covers(k, x) {
        assert Covers(k, x) ==> Covers(k, dst);
      }
    }
  }

  lemma Comparable(p: Key, b: Key, x: Key)
    requires Covers(b, x)
    ensures Covers(p, x) ==> Covers(p, b) || Covers(b, p)
  {
    if |p.s| <= |b.s| {
      assert x.s[..|p.s|] == b.s[..|p.s|];
    } else if |p.s| <= |x.s| {
      assert x.s[..|b.s|] == x.s[..|p.s|][..|b.s|];
    }
  }

  // refreshing an entry changes no verdict
  lemma {:induction false} RefreshForward(m: Cache, b: Key, ttl: int, x: Key)
    requires b in m
    ensures Forward(m[b := m[b].(ttl := ttl)], x) == Forward(m, x)
  {
    var n := m[b := m[b].(ttl := ttl)];
    BestIsLongest(m, x);
    BestIsLongest(n, x);
    match Best(m, x)
    case Nil => assert Best(n, x).To? ==> IsLongest(n, x, Best(n, x).k);
    case To(k) => assert IsLongest(n, x, k);
  }

  lemma {:induction false} EntryForward(m: Cache, p: Key, ttl: int, addr: Rloc, x: Key)
    requires Best(m, p) == Nil
    ensures Forward(Next(m, Reply(p, ttl, addr)), x)
         == if Covers(p, x) && Best(m, x) == Nil then Encapsulate(addr) else Forward(m, x)
  {
    var n := Next(m, Reply(p, ttl, addr));
    BestIsLongest(m, p);
    BestIsLongest(m, x);
    BestIsLongest(n, x);
    match Best(m, x)
    case Nil =>
      if Covers(p, x) { assert IsLongest(n, x, p); }
    case To(b) =>
      Comparable(p, b, x);
      assert IsLongest(n, x, b);
  }

  /** A reply redirects a destination if and only if its prefix covers it and it had no match; the verdict on any
      other stays. */
  lemma {:induction false} ReplyForward(m: Cache, p: Key, ttl: int, addr: Rloc, x: Key)
    ensures Forward(Next(m, Reply(p, ttl, addr)), x)
         == if Covers(p, x) && Best(m, x) == Nil then Encapsulate(addr) else Forward(m, x)
    ensures Forward(Next(m, Reply(p, ttl, addr)), x) != Forward(m, x) <==> Covers(p, x) && Best(m, x) == Nil
  {
    BestIsLongest(m, p);
    BestIsLongest(m, x);
    match Best(m, p)
    case Nil => EntryForward(m, p, ttl, addr, x);
    case To(b) =>
      RefreshForward(m, b, TTL_DEFAULT, x);
      assert Covers(p, x) ==> Covers(b, x);
  }

  // ---- queried entries ----

  ghost predicate QueriedAt(m: Cache, k: Key) {
    k in m && m[k].state == Queried
  }

  // the step takes the place of the queried entry k, or lets it expire; a reply does neither
  ghost predicate Resolves(m: Cache, s: Step, k: Key) {
    match s
    case Install(x, _) => x == k
    case Deny(x, act) => x == k && (act == Native || act == DropPackets)
    case Sweep => k !in Swept(m)
    case _ => false
  }

  lemma {:induction false} QueriedStep(m: Cache, s: Step, k: Key)
    requires QueriedAt(m, k)
    ensures QueriedAt(Next(m, s), k) <==> !Resolves(m, s, k)
    ensures Resolves(m, s, k) && s.Sweep? ==> m[k].ttl <= TTL_CHECK_INTERVAL && !Exempt(m, k)
  {
    match s {
      case Uninstall(x) => BestIsLongest(m, x);
      case Reply(x, ttl, a) => BestIsLongest(m, x);
      case _ =>
    }
  }

  ghost predicate Unresolved(m: Cache, steps: seq<Step>, k: Key)
    decreases |steps|
  {
    steps == [] || (!Resolves(m, steps[0], k) && Unresolved(Next(m, steps[0]), steps[1..], k))
  }

  /** Over any run, a queried entry stays queried, and its destination is sent natively, until it expires, or is
      installed as static, or denied under its own key. No reply with locators resolves it. */
  lemma {:induction false} QueriedRun(m: Cache, steps: seq<Step>, k: Key)
    requires QueriedAt(m, k) && Unresolved(m, steps, k)
    ensures QueriedAt(Run(m, steps), k) && Forward(Run(m, steps), k) == SendNatively
    decreases |steps|
  {
    if steps != [] {
      QueriedStep(m, steps[0], k);
      QueriedRun(Next(m, steps[0]), steps[1..], k);
    }
  }

  /** The entry installed by a miss hides every reply to it: the destination that was asked about is sent natively
      over any run that does not resolve that entry, whatever replies the run holds. */
  lemma {:induction false} ReplyHidden(m: Cache, dst: Key, junk: int, a: Rloc, steps: seq<Step>)
    requires Best(m, dst) == Nil && Unresolved(Next(m, Query(dst, junk, a)), steps, dst)
    ensures Forward(Run(Next(m, Query(dst, junk, a)), steps), dst) == SendNatively
  {
    QueriedRun(Next(m, Query(dst, junk, a)), steps, dst);
  }

  // a miss, and the reply that it asked for
  lemma {:induction false} ReplyTooLate(dst: Key, junk: int, a: Rloc, ttl: int, addr: Rloc)
    ensures var m := Run(map[], [Query(dst, junk, a), Reply(dst, ttl, addr)]);
      Forward(m, dst) == SendNatively && Forward(m, dst) != Encapsulate(addr)
  {
    var steps := [Reply(dst, ttl, addr)];
    var m := Next(map[], Query(dst, junk, a));
    assert steps[1..] == [] && [Query(dst, junk, a), Reply(dst, ttl, addr)][1..] == steps;
    BestIsLongest(map[], dst);
    assert Unresolved(Next(m, steps[0]), [], dst);
    ReplyHidden(map[], dst, junk, a, steps);
  }
}
