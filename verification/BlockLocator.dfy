/** The block locator: a single thread that handles messages about which domain has
    loaded which block. It keeps two indexes, from block to domains and from domain
    to blocks, that must stay inverse to each other. */
module BlockLocator {

  import opened Wrappers

  type BlockId = nat
  type Domain = nat

  const INVALID_BLOCK_ID: BlockId := 0
  const DOMAINS: nat := 0x1_0000  // block_id_domain has 16 bits

  datatype Message =
    | Register(address: string)
    | ShiftbossIndex(domain: Domain, index: nat)
    | Add(block: BlockId, domain: Domain)
    | Delete(block: BlockId, domain: Domain)
    | GetAllAddresses
    | Unregister(domain: Domain)
    | Poison

  datatype Reply = NoReply | NewDomain(domain: Domain) | Addresses(addresses: map<Domain, string>)

  /** What the locator knows, with the two indexes as one relation. */
  datatype View = View(
    counter: Domain,
    addresses: map<Domain, string>,
    shiftboss: map<Domain, nat>,
    held: set<(BlockId, Domain)>)

  const INITIAL := View(0, map[], map[], {})

  function NextDomain(v: View): Domain {
    (v.counter + 1) % DOMAINS
  }

  function Next(v: View, m: Message): View {
    match m
    case Register(address) =>
      var id := NextDomain(v);
      v.(counter := id, addresses := if id in v.addresses then v.addresses else v.addresses[id := address])
    case ShiftbossIndex(domain, index) =>
      if domain in v.shiftboss then v else v.(shiftboss := v.shiftboss[domain := index])
    case Add(block, domain) => v.(held := v.held + {(block, domain)})
    case Delete(block, domain) => v.(held := v.held - {(block, domain)})
    case Unregister(domain) =>
      v.(addresses := v.addresses - {domain}, held := set p | p in v.held && p.1 != domain)
    case GetAllAddresses => v
    case Poison => v
  }

  function ReplyTo(v: View, m: Message): Reply {
    match m
    case Register(_) => NewDomain(NextDomain(v))
    case GetAllAddresses => Addresses(v.addresses)
    case _ => NoReply
  }

  /** The view after a whole log of messages. */
  function After(v: View, log: seq<Message>): View {
    if log == [] then v else Next(After(v, log[..|log| - 1]), log[|log| - 1])
  }

  function Replies(v: View, log: seq<Message>): seq<Reply> {
    if log == [] then []
    else Replies(v, log[..|log| - 1]) + [ReplyTo(After(v, log[..|log| - 1]), log[|log| - 1])]
  }

  // ---------- What a log of messages leaves behind ----------

  predicate Removes(m: Message, block: BlockId, domain: Domain) {
    m == Delete(block, domain) || m == Unregister(domain)
  }

  /** Of the messages that add or remove this block in this domain, the last is an add. */
  ghost predicate LastIsAdd(log: seq<Message>, block: BlockId, domain: Domain) {
    exists i | 0 <= i < |log| ::
      log[i] == Add(block, domain) && forall j | i < j < |log| :: !Removes(log[j], block, domain)
  }

  lemma {:induction false} HeldIffLastIsAdd(log: seq<Message>, block: BlockId, domain: Domain)
    ensures (block, domain) in After(INITIAL, log).held <==> LastIsAdd(log, block, domain)
  {
    if log != [] {
      var n := |log| - 1;
      var last, before := log[n], log[..n];
      HeldIffLastIsAdd(before, block, domain);
      if last == Add(block, domain) {
        assert LastIsAdd(log, block, domain);
      } else if !Removes(last, block, domain) {
        if LastIsAdd(before, block, domain) {
          var i :| 0 <= i < n && before[i] == Add(block, domain) && forall j | i < j < n :: !Removes(before[j], block, domain);
          assert log[i] == Add(block, domain);
          assert LastIsAdd(log, block, domain);
        }
        if LastIsAdd(log, block, domain) {
          var i :| 0 <= i < |log| && log[i] == Add(block, domain) && forall j | i < j < |log| :: !Removes(log[j], block, domain);
          assert i < n && before[i] == Add(block, domain);
          assert forall j | i < j < n :: before[j] == log[j];
        }
      }
    }
  }

  // ---------- Domain ids ----------

  /** The domain ids handed out during a log, in order. */
  function Issued(log: seq<Message>): seq<Domain> {
    if log == [] then []
    else
      var before := log[..|log| - 1];
      match ReplyTo(After(INITIAL, before), log[|log| - 1])
      case NewDomain(domain) => Issued(before) + [domain]
      case _ => Issued(before)
  }

  /** How many times a domain was registered. */
  function Registrations(log: seq<Message>): nat {
    if log == [] then 0
    else Registrations(log[..|log| - 1]) + if log[|log| - 1].Register? then 1 else 0
  }

  lemma {:induction false} IssuedAre(log: seq<Message>)
    ensures |Issued(log)| == Registrations(log)
    ensures After(INITIAL, log).counter == Registrations(log) % DOMAINS
    ensures forall i | 0 <= i < |Issued(log)| :: Issued(log)[i] == (i + 1) % DOMAINS
  {
    if log != [] {
      IssuedAre(log[..|log| - 1]);
      NextModulo(|Issued(log[..|log| - 1])|);
    }
  }

  lemma NextModulo(n: nat)
    ensures (n % DOMAINS + 1) % DOMAINS == (n + 1) % DOMAINS
  {
  }

  ghost predicate Ascend(ids: seq<Domain>) {
    forall i, j | 0 <= i < j < |ids| :: ids[i] < ids[j]
  }

  ghost predicate Distinct(ids: seq<Domain>) {
    forall i, j | 0 <= i < j < |ids| :: ids[i] != ids[j]
  }

  /** Ids ascend, whatever is unregistered in between, for exactly the first
      65535 registrations, which is the limit the registration checks in debug
      builds. After that the 16-bit counter wraps to 0. */
  lemma IdsAscendUpToLimit(log: seq<Message>)
    ensures Ascend(Issued(log)) <==> Registrations(log) < DOMAINS
  {
    IssuedAre(log);
    if |Issued(log)| >= DOMAINS {
      assert Issued(log)[0] == 1 && Issued(log)[DOMAINS - 1] == 0;
    }
  }

  /** No id is ever given out twice for exactly the first 65536 registrations. */
  lemma IdsDistinctUpToWrap(log: seq<Message>)
    ensures Distinct(Issued(log)) <==> Registrations(log) <= DOMAINS
  {
    IssuedAre(log);
    if |Issued(log)| > DOMAINS {
      assert Issued(log)[0] == Issued(log)[DOMAINS];
    }
  }

  /** The same worker registered over and over. */
  function Registering(n: nat, address: string): seq<Message> {
    seq(n, _ => Register(address))
  }

  lemma {:induction false} RegisteringCounts(n: nat, address: string)
    ensures Registrations(Registering(n, address)) == n
  {
    if n > 0 {
      RegisteringCounts(n - 1, address);
      assert Registering(n, address)[..n - 1] == Registering(n - 1, address);
    }
  }

  /** The 65536th registration gets id 0, below the one before it. */
  lemma IdsWrapExample(address: string)
    ensures var ids := Issued(Registering(DOMAINS, address));
            |ids| == DOMAINS && ids[DOMAINS - 2] == DOMAINS - 1 && ids[DOMAINS - 1] == 0 && !Ascend(ids) && Distinct(ids)
  {
    RegisteringCounts(DOMAINS, address);
    IssuedAre(Registering(DOMAINS, address));
    IdsAscendUpToLimit(Registering(DOMAINS, address));
    IdsDistinctUpToWrap(Registering(DOMAINS, address));
  }

  /** The 65537th gets the id of the first, and keeps the first one's address. */
  lemma IdsRepeatExample(first: string, address: string)
    ensures var log := [Register(first)] + Registering(DOMAINS, address);
            && |Issued(log)| == DOMAINS + 1 && Issued(log)[0] == Issued(log)[DOMAINS] == 1 && !Distinct(Issued(log))
            && 1 in After(INITIAL, log).addresses && After(INITIAL, log).addresses[1] == first
  {
    FirstAddressStays(first, address, DOMAINS);
    IssuedAre([Register(first)] + Registering(DOMAINS, address));
  }

  lemma {:induction false} FirstAddressStays(first: string, address: string, n: nat)
    ensures var log := [Register(first)] + Registering(n, address);
            && Registrations(log) == n + 1
            && 1 in After(INITIAL, log).addresses && After(INITIAL, log).addresses[1] == first
  {
    var log := [Register(first)] + Registering(n, address);
    if n == 0 {
      assert log == [Register(first)] && log[..0] == [];
    } else {
      FirstAddressStays(first, address, n - 1);
      assert log[..n] == [Register(first)] + Registering(n - 1, address);
      assert log[n] == Register(address);
    }
  }

  // ---------- Addresses and Shiftboss indexes ----------

  /** Message `i` is the registration that gets id `domain`. */
  predicate RegisteredAt(log: seq<Message>, i: nat, domain: Domain) {
    i < |log| && log[i].Register? && Registrations(log[..i + 1]) % DOMAINS == domain
  }

  predicate StaysRegistered(log: seq<Message>, i: nat, domain: Domain) {
    forall j | i < j < |log| :: log[j] != Unregister(domain)
  }

  /** The id was given out and not unregistered since. */
  ghost predicate IsLive(log: seq<Message>, domain: Domain) {
    exists i: nat :: RegisteredAt(log, i, domain) && StaysRegistered(log, i, domain)
  }

  /** Message `i` recorded the address that the id has: the id was not live before
      it, and is not unregistered after it. */
  ghost predicate Recorded(log: seq<Message>, i: nat, domain: Domain, address: string) {
    && RegisteredAt(log, i, domain) && StaysRegistered(log, i, domain)
    && log[i] == Register(address) && !IsLive(log[..i], domain)
  }

  ghost predicate HasAddress(log: seq<Message>, domain: Domain, address: string) {
    exists i: nat :: Recorded(log, i, domain, address)
  }

  lemma RegisteredBefore(before: seq<Message>, m: Message, i: nat, domain: Domain)
    requires i < |before|
    ensures RegisteredAt(before + [m], i, domain) <==> RegisteredAt(before, i, domain)
    ensures StaysRegistered(before + [m], i, domain) <==> StaysRegistered(before, i, domain) && m != Unregister(domain)
    ensures (before + [m])[..i] == before[..i] && (before + [m])[i] == before[i]
  {
    var log := before + [m];
    assert log[..i + 1] == before[..i + 1];
    assert log[|before|] == m && forall j | i < j < |before| :: log[j] == before[j];
  }

  lemma RegistersLast(before: seq<Message>, m: Message, domain: Domain)
    ensures RegisteredAt(before + [m], |before|, domain)
            <==> m.Register? && Registrations(before + [m]) % DOMAINS == domain
    ensures StaysRegistered(before + [m], |before|, domain)
    ensures (before + [m])[..|before|] == before && (before + [m])[|before|] == m
  {
    var log := before + [m];
    assert log[..|before| + 1] == log;
  }

  lemma LiveOneMore(before: seq<Message>, m: Message, domain: Domain)
    ensures IsLive(before + [m], domain)
            <==> || (m.Register? && Registrations(before + [m]) % DOMAINS == domain)
                 || (IsLive(before, domain) && m != Unregister(domain))
  {
    var log := before + [m];
    RegistersLast(before, m, domain);
    if IsLive(before, domain) && m != Unregister(domain) {
      var i: nat :| RegisteredAt(before, i, domain) && StaysRegistered(before, i, domain);
      RegisteredBefore(before, m, i, domain);
      assert RegisteredAt(log, i, domain) && StaysRegistered(log, i, domain);
    }
    if IsLive(log, domain) {
      var i: nat :| RegisteredAt(log, i, domain) && StaysRegistered(log, i, domain);
      if i < |before| {
        RegisteredBefore(before, m, i, domain);
      }
    }
  }

  lemma AddressOneMore(before: seq<Message>, m: Message, domain: Domain, address: string)
    ensures HasAddress(before + [m], domain, address)
            <==> || (m == Register(address) && Registrations(before + [m]) % DOMAINS == domain && !IsLive(before, domain))
                 || (HasAddress(before, domain, address) && m != Unregister(domain))
  {
    var log := before + [m];
    RegistersLast(before, m, domain);
    if m == Register(address) && Registrations(before + [m]) % DOMAINS == domain && !IsLive(before, domain) {
      assert Recorded(log, |before|, domain, address);
    }
    if HasAddress(before, domain, address) && m != Unregister(domain) {
      var i: nat :| Recorded(before, i, domain, address);
      RegisteredBefore(before, m, i, domain);
      assert Recorded(log, i, domain, address);
    }
    if HasAddress(log, domain, address) {
      var i: nat :| Recorded(log, i, domain, address);
      if i < |before| {
        RegisteredBefore(before, m, i, domain);
        assert Recorded(before, i, domain, address);
      }
    }
  }

  /** After every log a domain has an address exactly if its id is live, and the
      address is that of the registration which made it so. */
  lemma {:induction false} AddressesAre(log: seq<Message>, domain: Domain, address: string)
    ensures var addresses := After(INITIAL, log).addresses;
            && (domain in addresses <==> IsLive(log, domain))
            && (domain in addresses && addresses[domain] == address <==> HasAddress(log, domain, address))
  {
    if log != [] {
      var before, m := log[..|log| - 1], log[|log| - 1];
      AddressesAre(before, domain, address);
      IssuedAre(log);
      LiveOneMore(before, m, domain);
      AddressOneMore(before, m, domain, address);
      assert log == before + [m];
    }
  }

  /** Message `i` is the first that gives the domain a Shiftboss index. */
  predicate FirstIndexAt(log: seq<Message>, i: nat, domain: Domain) {
    && i < |log| && log[i].ShiftbossIndex? && log[i].domain == domain
    && forall j | 0 <= j < i :: !(log[j].ShiftbossIndex? && log[j].domain == domain)
  }

  /** After every log the Shiftboss index of a domain is the first it was given. */
  lemma {:induction false} ShiftbossIsFirst(log: seq<Message>, domain: Domain, index: nat)
    ensures var shiftboss := After(INITIAL, log).shiftboss;
            && (domain in shiftboss <==> exists i: nat :: FirstIndexAt(log, i, domain))
            && (domain in shiftboss && shiftboss[domain] == index
                <==> exists i: nat :: FirstIndexAt(log, i, domain) && log[i].index == index)
  {
    if log != [] {
      var n := |log| - 1;
      var before, m := log[..n], log[n];
      ShiftbossIsFirst(before, domain, index);
      forall i: nat | i < n ensures FirstIndexAt(log, i, domain) <==> FirstIndexAt(before, i, domain) {
        assert before[i] == log[i] && forall j | 0 <= j < i :: before[j] == log[j];
      }
      NoFirstIndex(before, domain);
      assert FirstIndexAt(log, n, domain)
        <==> m.ShiftbossIndex? && m.domain == domain && !exists i: nat :: FirstIndexAt(before, i, domain) by {
        assert forall j | 0 <= j < n :: before[j] == log[j];
      }
    }
  }

  lemma {:induction false} NoFirstIndex(log: seq<Message>, domain: Domain)
    ensures (exists i: nat :: FirstIndexAt(log, i, domain))
            <==> exists i | 0 <= i < |log| :: log[i].ShiftbossIndex? && log[i].domain == domain
  {
    if log != [] {
      var n := |log| - 1;
      NoFirstIndex(log[..n], domain);
      if exists i: nat :: FirstIndexAt(log[..n], i, domain) {
        var i: nat :| FirstIndexAt(log[..n], i, domain);
        assert FirstIndexAt(log, i, domain);
      } else if log[n].ShiftbossIndex? && log[n].domain == domain {
        assert forall j | 0 <= j < n :: log[..n][j] == log[j];
        assert FirstIndexAt(log, n, domain);
      }
    }
  }

  // ---------- Replies ----------

  /** The replies to a log: a registration is answered with its number modulo 2^16,
      a request for the addresses with those recorded so far, all else not at all. */
  lemma {:induction false} RepliesAre(log: seq<Message>, i: nat)
    requires i < |log|
    ensures |Replies(INITIAL, log)| == |log|
    ensures match log[i]
            case Register(_) => Replies(INITIAL, log)[i] == NewDomain(Registrations(log[..i + 1]) % DOMAINS)
            case GetAllAddresses =>
              && Replies(INITIAL, log)[i].Addresses?
              && forall domain, address ::
                   var addresses := Replies(INITIAL, log)[i].addresses;
                   domain in addresses && addresses[domain] == address <==> HasAddress(log[..i], domain, address)
            case _ => Replies(INITIAL, log)[i] == NoReply
  {
    var n := |log| - 1;
    var before := log[..n];
    RepliesCount(log);
    if i < n {
      RepliesAre(before, i);
      assert before[..i] == log[..i] && before[..i + 1] == log[..i + 1];
    } else {
      RepliesCount(before);
      LastReply(before, log[n]);
      assert log[..n + 1] == log && log == before + [log[n]];
    }
  }

  lemma {:induction false} RepliesCount(log: seq<Message>)
    ensures |Replies(INITIAL, log)| == |log|
  {
    if log != [] {
      RepliesCount(log[..|log| - 1]);
    }
  }

  lemma LastReply(before: seq<Message>, m: Message)
    ensures m.Register? ==> ReplyTo(After(INITIAL, before), m) == NewDomain(Registrations(before + [m]) % DOMAINS)
    ensures m.GetAllAddresses? ==>
              && ReplyTo(After(INITIAL, before), m).Addresses?
              && forall domain, address ::
                   var addresses := ReplyTo(After(INITIAL, before), m).addresses;
                   domain in addresses && addresses[domain] == address <==> HasAddress(before, domain, address)
  {
    IssuedAre(before + [m]);
    assert (before + [m])[..|before|] == before;
    forall domain, address
      ensures var addresses := After(INITIAL, before).addresses;
              domain in addresses && addresses[domain] == address <==> HasAddress(before, domain, address)
    {
      AddressesAre(before, domain, address);
    }
  }

  // ---------- The locator ----------

  /** The messages up to the first poison message. */
  function Handled(log: seq<Message>): seq<Message> {
    if log == [] || log[0].Poison? then [] else [log[0]] + Handled(log[1..])
  }

  lemma {:induction false} HandledIsBeforePoison(log: seq<Message>)
    ensures |Handled(log)| <= |log| && Handled(log) == log[..|Handled(log)|]
    ensures forall i | 0 <= i < |Handled(log)| :: !log[i].Poison?
    ensures |Handled(log)| < |log| ==> log[|Handled(log)|].Poison?
  {
    if log != [] && !log[0].Poison? {
      HandledIsBeforePoison(log[1..]);
    }
  }

  lemma HandledOneMore(log: seq<Message>, i: nat, handled: seq<Message>)
    requires i < |log| && !log[i].Poison? && Handled(log) == handled + Handled(log[i..])
    ensures Handled(log) == handled + [log[i]] + Handled(log[i + 1..])
  {
    assert log[i..][1..] == log[i + 1..];
  }

  ghost predicate Inverse(locations: map<BlockId, set<Domain>>, blocks: map<Domain, set<BlockId>>) {
    forall block, domain ::
      (block in locations && domain in locations[block]) <==> (domain in blocks && block in blocks[domain])
  }

  /** The sets of the blocks a domain holds are the only ones it appears in. */
  lemma EvictionKeepsInverse(was: map<BlockId, set<Domain>>, now: map<BlockId, set<Domain>>,
                             blocks: map<Domain, set<BlockId>>, domain: Domain)
    requires Inverse(was, blocks) && now.Keys == was.Keys
    requires forall b | b in was ::
               now[b] == if domain in blocks && b in blocks[domain] then was[b] - {domain} else was[b]
    ensures Inverse(now, blocks - {domain})
    ensures forall b | b in was :: now[b] == was[b] - {domain}
  {
    var fewer := blocks - {domain};
    forall b, d ensures (b in now && d in now[b]) <==> (d in fewer && b in fewer[d]) {
      assert (b in was && d in was[b]) <==> (d in blocks && b in blocks[d]);
      assert (b in was && domain in was[b]) <==> (domain in blocks && b in blocks[domain]);
    }
    forall b | b in was ensures now[b] == was[b] - {domain} {
      assert (b in was && domain in was[b]) <==> (domain in blocks && b in blocks[domain]);
    }
  }

  class BlockLocator {
    var blockDomain: Domain
    var domainNetworkAddresses: map<Domain, string>
    var blockDomainToShiftbossIndex: map<Domain, nat>
    var blockLocations: map<BlockId, set<Domain>>
    var domainBlocks: map<Domain, set<BlockId>>

    ghost function Held(): set<(BlockId, Domain)>
      reads this
    {
      set block, domain | block in blockLocations && domain in blockLocations[block] :: (block, domain)
    }

    ghost function CurrentView(): View
      reads this
    {
      View(blockDomain, domainNetworkAddresses, blockDomainToShiftbossIndex, Held())
    }

    /** The two indexes are inverse to each other. */
    ghost predicate Valid()
      reads this
    {
      Inverse(blockLocations, domainBlocks)
    }

    constructor ()
      ensures Valid() && CurrentView() == INITIAL
    {
      blockDomain := 0;
      domainNetworkAddresses, blockDomainToShiftbossIndex := map[], map[];
      blockLocations, domainBlocks := map[], map[];
    }

    /** One message of the loop. A poison message is for the loop itself. */
    method Process(m: Message) returns (reply: Reply)
      requires Valid() && !m.Poison?
      modifies this
      ensures Valid()
      ensures CurrentView() == Next(old(CurrentView()), m)
      ensures reply == ReplyTo(old(CurrentView()), m)
    {
      reply := NoReply;
      match m {
        case Register(address) =>
          reply := RegisterDomain(address);
        case ShiftbossIndex(domain, index) =>
          if domain !in blockDomainToShiftbossIndex {
            blockDomainToShiftbossIndex := blockDomainToShiftbossIndex[domain := index];
          }
        case Add(block, domain) =>
          AddLocation(block, domain);
        case Delete(block, domain) =>
          DeleteLocation(block, domain);
        case GetAllAddresses =>
          reply := Addresses(domainNetworkAddresses);
        case Unregister(domain) =>
          domainNetworkAddresses := domainNetworkAddresses - {domain};
          EvictDomain(domain);
      }
    }

    method RegisterDomain(address: string) returns (reply: Reply)
      requires Valid()
      modifies this`blockDomain, this`domainNetworkAddresses, this`domainBlocks
      ensures Valid()
      ensures CurrentView() == Next(old(CurrentView()), Register(address))
      ensures reply == ReplyTo(old(CurrentView()), Register(address))
    {
      blockDomain := (blockDomain + 1) % DOMAINS;
      if blockDomain !in domainNetworkAddresses {
        domainNetworkAddresses := domainNetworkAddresses[blockDomain := address];
      }
      if blockDomain !in domainBlocks {
        domainBlocks := domainBlocks[blockDomain := {}];
      }
      return NewDomain(blockDomain);
    }

    method AddLocation(block: BlockId, domain: Domain)
      requires Valid()
      modifies this`domainBlocks, this`blockLocations
      ensures Valid()
      ensures Held() == old(Held()) + {(block, domain)}
    {
      var blocks := if domain in domainBlocks then domainBlocks[domain] else {};
      var addedToDomain := block !in blocks;
      domainBlocks := domainBlocks[domain := blocks + {block}];
      var domains := if block in blockLocations then blockLocations[block] else {};
      var addedToBlock := domain !in domains;
      blockLocations := blockLocations[block := domains + {domain}];
      assert addedToDomain == addedToBlock;  // the two insertions agree
    }

    method DeleteLocation(block: BlockId, domain: Domain)
      requires Valid()
      modifies this`domainBlocks, this`blockLocations
      ensures Valid()
      ensures Held() == old(Held()) - {(block, domain)}
    {
      var domains := if block in blockLocations then blockLocations[block] else {};
      var blockFound := domain in domains;
      blockLocations := blockLocations[block := domains - {domain}];
      if blockFound {
        domainBlocks := domainBlocks[domain := domainBlocks[domain] - {block}];
      }
    }

    /** Takes the domain out of the set of every block it holds. */
    method EvictDomain(domain: Domain)
      requires Valid()
      modifies this`domainBlocks, this`blockLocations
      ensures Valid()
      ensures Held() == set p | p in old(Held()) && p.1 != domain
    {
      var blocks := if domain in domainBlocks then domainBlocks[domain] else {};
      ghost var was := blockLocations;
      var rest := blocks;
      assert blocks <= was.Keys;
      while rest != {}
        invariant domainBlocks == old(domainBlocks)
        invariant rest <= blocks && blockLocations.Keys == was.Keys && blocks <= was.Keys
        invariant forall b | b in was ::
                    blockLocations[b] == if b in blocks - rest then was[b] - {domain} else was[b]
        decreases rest
      {
        var block :| block in rest;
        blockLocations := blockLocations[block := blockLocations[block] - {domain}];
        rest := rest - {block};
      }
      EvictionKeepsInverse(was, blockLocations, domainBlocks, domain);
      domainBlocks := domainBlocks - {domain};
    }

    /** The message loop. */
    method Run(log: seq<Message>) returns (replies: seq<Reply>)
      requires Valid()
      modifies this
      ensures Valid()
      ensures CurrentView() == After(old(CurrentView()), Handled(log))
      ensures replies == Replies(old(CurrentView()), Handled(log))
    {
      replies := [];
      ghost var start := CurrentView();
      ghost var handled: seq<Message> := [];
      for i := 0 to |log|
        invariant Valid()
        invariant Handled(log) == handled + Handled(log[i..])
        invariant CurrentView() == After(start, handled) && replies == Replies(start, handled)
      {
        if log[i].Poison? {
          assert Handled(log) == handled;
          return;
        }
        var reply := Process(log[i]);
        replies := replies + [reply];
        HandledOneMore(log, i, handled);
        handled := handled + [log[i]];
        assert handled[..|handled| - 1] + [log[i]] == handled;
      }
      assert Handled(log) == handled;
    }

    method GetBlockDomains(block: BlockId) returns (domains: set<Domain>)
      ensures forall d :: d in domains <==> (block, d) in Held()
    {
      if block in blockLocations {
        return blockLocations[block];
      }
      return {};
    }

    /** The Shiftboss of some domain that holds the block, if any has one. */
    method GetBlockLocalityInfo(block: BlockId) returns (index: Option<nat>)
      ensures index.None? <==>
                block == INVALID_BLOCK_ID || forall d | d in blockDomainToShiftbossIndex :: (block, d) !in Held()
      ensures index.Some? ==>
                exists d | d in blockDomainToShiftbossIndex ::
                  (block, d) in Held() && blockDomainToShiftbossIndex[d] == index.value
    {
      if block == INVALID_BLOCK_ID {
        return None;
      }
      var domains := GetBlockDomains(block);
      var rest := domains;
      while rest != {}
        invariant rest <= domains
        invariant forall d | d in domains - rest :: d !in blockDomainToShiftbossIndex
        decreases rest
      {
        var domain :| domain in rest;
        if domain in blockDomainToShiftbossIndex {
          return Some(blockDomainToShiftbossIndex[domain]);
        }
        rest := rest - {domain};
      }
      return None;
    }
  }
}
