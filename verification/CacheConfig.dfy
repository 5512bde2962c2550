// A host's `[cache]` table turned into a policy (crates/ikigai-core/src/cache_config.rs), and
// what a cache run under an accepted table holds.

module CacheConfigs {
  import opened Wrappers
  import opened Words
  import opened CacheEntries
  import opened Cache
  import opened CacheAccounting
  import opened CacheLru
  import opened CacheScan
  import opened CachePartitioned
  import opened Sketches

  datatype PartitionConfig = PartitionConfig(
    prefix: string,
    maxBytes: nat,
    maxEntries: Option<nat>,
    policy: Option<string>,
    protectedPercent: Option<nat>)

  datatype CacheConfig = CacheConfig(
    policy: Option<string>,
    maxEntries: Option<nat>,
    maxBytes: Option<nat>,
    protectedPercent: Option<nat>,
    partitions: seq<PartitionConfig>)

  const DEFAULT_BOUND := CacheBound(4096, 0x400_0000)
  const DEFAULT_PERCENT: nat := 80

  // A policy built by name over a bound. A protected share means nothing to the others.
  datatype Kind = LruKind | FifoKind | CostAwareKind | ScanKind(percent: nat)
  datatype Built = Built(kind: Kind, bound: CacheBound)

  // A whole cache's policy: one policy, or partitions over a rest.
  datatype BuiltCache = BuiltCache(given: seq<(string, Built)>, rest: Built)

  // Which key a refusal names: the whole table's or a partition's.
  datatype Key = Whole | Of(partition: nat)

  datatype ConfigError =
    | NotPositive(key: Key)
    | DoesNotFit(key: Key)
    | NotScanResistant(key: Key)
    | PercentOutOfRange(key: Key)
    | UnknownPolicy(key: Key)
    | EmptyPrefix(key: Key)
    | PrefixTwice(key: Key)
    | NothingLeft

  function Positive(key: Key, value: nat): Result<nat, ConfigError> {
    if value == 0 then Err(NotPositive(key))
    else if value > WORD_MAX then Err(DoesNotFit(key))
    else Ok(value)
  }

  function NamedPolicy(key: Key, name: string, bound: CacheBound, percent: Option<nat>): Result<Built, ConfigError> {
    if percent.Some? && name != "scan-resistant" then Err(NotScanResistant(key))
    else if name == "lru" then Ok(Built(LruKind, bound))
    else if name == "fifo" then Ok(Built(FifoKind, bound))
    else if name == "cost-aware" then Ok(Built(CostAwareKind, bound))
    else if name == "scan-resistant" then
      match percent
      case None => Ok(Built(ScanKind(DEFAULT_PERCENT), bound))
      case Some(p) => if 1 <= p <= 99 then Ok(Built(ScanKind(p), bound)) else Err(PercentOutOfRange(key))
    else Err(UnknownPolicy(key))
  }

  function GetOr<T>(o: Option<T>, default: T): T {
    match o case Some(v) => v case None => default
  }

  // The configured totals, whatever they are.
  function Total(c: CacheConfig): CacheBound {
    CacheBound(GetOr(c.maxEntries, DEFAULT_BOUND.maxEntries), GetOr(c.maxBytes, DEFAULT_BOUND.maxBytes))
  }

  function PolicyName(c: CacheConfig): string { GetOr(c.policy, "lru") }

  // A partition's entry count: its own, or its byte share of the whole's.
  function PartitionEntries(total: CacheBound, p: PartitionConfig): nat
    requires total.maxBytes > 0
  {
    match p.maxEntries
    case Some(entries) => entries
    case None =>
      var share := total.maxEntries * p.maxBytes / total.maxBytes;
      var fitted := if share > WORD_MAX then WORD_MAX else share;
      if fitted < 1 then 1 else fitted
  }

  // A partition's protected share: its own, or the cache's when it applies.
  function PartitionPercent(c: CacheConfig, p: PartitionConfig): Option<nat> {
    if p.protectedPercent.Some? then p.protectedPercent
    else if GetOr(p.policy, PolicyName(c)) != "scan-resistant" then None
    else c.protectedPercent
  }

  // ---- which tables are accepted ----

  predicate Bounded(n: nat) { 0 < n <= WORD_MAX }

  predicate KnownPolicy(name: string, percent: Option<nat>) {
    && name in {"lru", "fifo", "cost-aware", "scan-resistant"}
    && (percent.Some? ==> name == "scan-resistant" && 1 <= percent.value <= 99)
  }

  predicate WholeValid(c: CacheConfig) {
    Bounded(Total(c).maxEntries) && Bounded(Total(c).maxBytes) && KnownPolicy(PolicyName(c), c.protectedPercent)
  }

  predicate PartitionValid(c: CacheConfig, i: nat)
    requires i < |c.partitions| && Total(c).maxBytes > 0
  {
    var p := c.partitions[i];
    && p.prefix != ""
    && (forall j | 0 <= j < i :: c.partitions[j].prefix != p.prefix)
    && Bounded(p.maxBytes)
    && Bounded(PartitionEntries(Total(c), p))
    && KnownPolicy(GetOr(p.policy, PolicyName(c)), PartitionPercent(c, p))
  }

  function TakenEntries(c: CacheConfig, n: nat): nat
    requires n <= |c.partitions| && Total(c).maxBytes > 0
  {
    if n == 0 then 0 else TakenEntries(c, n - 1) + PartitionEntries(Total(c), c.partitions[n - 1])
  }

  function TakenBytes(c: CacheConfig, n: nat): nat
    requires n <= |c.partitions|
  {
    if n == 0 then 0 else TakenBytes(c, n - 1) + c.partitions[n - 1].maxBytes
  }

  predicate Acceptable(c: CacheConfig) {
    && WholeValid(c)
    && (c.partitions != [] ==>
          && (forall i | 0 <= i < |c.partitions| :: PartitionValid(c, i))
          && TakenEntries(c, |c.partitions|) < Total(c).maxEntries
          && TakenBytes(c, |c.partitions|) < Total(c).maxBytes)
  }

  // The policy an acceptable table describes: each partition its budget, the rest what is left.
  function Described(c: CacheConfig): BuiltCache
    requires Acceptable(c)
  {
    var n := |c.partitions|;
    BuiltCache(seq(n, i requires 0 <= i < n => DescribedPartition(c, i)),
               NamedPolicy(Whole, PolicyName(c),
                           CacheBound(Total(c).maxEntries - TakenEntries(c, n), Total(c).maxBytes - TakenBytes(c, n)),
                           c.protectedPercent).value)
  }

  function DescribedPartition(c: CacheConfig, i: nat): (string, Built)
    requires i < |c.partitions| && Total(c).maxBytes > 0 && PartitionValid(c, i)
  {
    var p := c.partitions[i];
    (p.prefix, NamedPolicy(Of(i), GetOr(p.policy, PolicyName(c)),
                           CacheBound(PartitionEntries(Total(c), p), p.maxBytes), PartitionPercent(c, p)).value)
  }

  // ---- why a table is refused ----

  // A count the table states under a key.
  predicate Stated(c: CacheConfig, key: Key, n: nat) {
    match key
    case Whole => n == Total(c).maxEntries || n == Total(c).maxBytes
    case Of(i) => i < |c.partitions| && (n == c.partitions[i].maxBytes || c.partitions[i].maxEntries == Some(n))
  }

  // The policy name and share that hold under a key.
  predicate NamedUnder(c: CacheConfig, key: Key, name: string, percent: Option<nat>) {
    match key
    case Whole => name == PolicyName(c) && percent == c.protectedPercent
    case Of(i) =>
      && i < |c.partitions|
      && name == GetOr(c.partitions[i].policy, PolicyName(c))
      && percent == (if c.partitions[i].protectedPercent.Some? then c.partitions[i].protectedPercent
                     else if name == "scan-resistant" then c.protectedPercent else None)
  }

  // What each refusal says of a table.
  ghost predicate Deserves(c: CacheConfig, error: ConfigError) {
    match error
    case NotPositive(key) => Stated(c, key, 0)
    case DoesNotFit(key) => exists n: nat :: Stated(c, key, n) && n > WORD_MAX
    case NotScanResistant(key) =>
      exists name, percent: nat :: NamedUnder(c, key, name, Some(percent)) && name != "scan-resistant"
    case PercentOutOfRange(key) =>
      exists percent: nat :: NamedUnder(c, key, "scan-resistant", Some(percent)) && !(1 <= percent <= 99)
    case UnknownPolicy(key) =>
      exists name, percent ::
        && NamedUnder(c, key, name, percent)
        && name != "lru" && name != "fifo" && name != "cost-aware" && name != "scan-resistant"
    case EmptyPrefix(key) => key.Of? && key.partition < |c.partitions| && c.partitions[key.partition].prefix == ""
    case PrefixTwice(key) =>
      && key.Of? && key.partition < |c.partitions|
      && exists j :: 0 <= j < key.partition && c.partitions[j].prefix == c.partitions[key.partition].prefix
    case NothingLeft =>
      && c.partitions != [] && Total(c).maxBytes > 0
      && (TakenEntries(c, |c.partitions|) >= Total(c).maxEntries || TakenBytes(c, |c.partitions|) >= Total(c).maxBytes)
  }

  // A name that is refused is refused for what holds under its key.
  lemma NamedRefused(c: CacheConfig, key: Key, name: string, bound: CacheBound, percent: Option<nat>)
    requires NamedUnder(c, key, name, percent) && NamedPolicy(key, name, bound, percent).Err?
    ensures Deserves(c, NamedPolicy(key, name, bound, percent).error)
  {
    if percent.Some? {
      assert NamedUnder(c, key, name, Some(percent.value));
    }
  }

  lemma CountRefused(c: CacheConfig, key: Key, n: nat)
    requires Stated(c, key, n) && Positive(key, n).Err?
    ensures Deserves(c, Positive(key, n).error)
  {
  }

  // A table is accepted exactly when it deserves no refusal.
  lemma AcceptableIff(c: CacheConfig)
    ensures Acceptable(c) <==> forall error :: !Deserves(c, error)
  {
    if Acceptable(c) {
      forall error ensures !Deserves(c, error) {
        NoneDeserved(c, error);
      }
    } else {
      var error := SomeDeserved(c);
    }
  }

  lemma NoneDeserved(c: CacheConfig, error: ConfigError)
    requires Acceptable(c)
    ensures !Deserves(c, error)
  {
    assert forall i | 0 <= i < |c.partitions| :: PartitionValid(c, i);
    match error
    case NotScanResistant(key) => NamedKnown(c, key);
    case PercentOutOfRange(key) => NamedKnown(c, key);
    case UnknownPolicy(key) => NamedKnown(c, key);
    case DoesNotFit(key) => StatedFits(c, key);
    case NotPositive(key) => StatedFits(c, key);
    case PrefixTwice(key) =>
      if key.Of? && key.partition < |c.partitions| {
        assert PartitionValid(c, key.partition);
      }
    case EmptyPrefix(key) =>
      if key.Of? && key.partition < |c.partitions| {
        assert PartitionValid(c, key.partition);
      }
    case NothingLeft =>
  }

  lemma StatedFits(c: CacheConfig, key: Key)
    requires Acceptable(c)
    ensures forall n: nat :: Stated(c, key, n) ==> 0 < n <= WORD_MAX
  {
    if key.Of? && key.partition < |c.partitions| {
      assert PartitionValid(c, key.partition);
    }
  }

  lemma NamedKnown(c: CacheConfig, key: Key)
    requires Acceptable(c)
    ensures forall name, percent :: NamedUnder(c, key, name, percent) ==> KnownPolicy(name, percent)
  {
    if key.Of? && key.partition < |c.partitions| {
      assert PartitionValid(c, key.partition);
    }
  }

  lemma SomeDeserved(c: CacheConfig) returns (error: ConfigError)
    requires !Acceptable(c)
    ensures Deserves(c, error)
  {
    if !WholeValid(c) {
      error := WholeDeserves(c);
    } else if i :| 0 <= i < |c.partitions| && !PartitionValid(c, i) {
      error := PartitionDeserves(c, i);
    } else {
      error := NothingLeft;
    }
  }

  lemma WholeDeserves(c: CacheConfig) returns (error: ConfigError)
    requires !WholeValid(c)
    ensures Deserves(c, error)
  {
    var total := Total(c);
    if Positive(Whole, total.maxEntries).Err? {
      CountRefused(c, Whole, total.maxEntries);
      error := Positive(Whole, total.maxEntries).error;
    } else if Positive(Whole, total.maxBytes).Err? {
      CountRefused(c, Whole, total.maxBytes);
      error := Positive(Whole, total.maxBytes).error;
    } else {
      NamedRefused(c, Whole, PolicyName(c), total, c.protectedPercent);
      error := NamedPolicy(Whole, PolicyName(c), total, c.protectedPercent).error;
    }
  }

  lemma PartitionDeserves(c: CacheConfig, i: nat) returns (error: ConfigError)
    requires WholeValid(c) && i < |c.partitions| && !PartitionValid(c, i)
    ensures Deserves(c, error)
  {
    var p := c.partitions[i];
    var bound := CacheBound(PartitionEntries(Total(c), p), p.maxBytes);
    if p.prefix == "" {
      error := EmptyPrefix(Of(i));
    } else if exists j :: 0 <= j < i && c.partitions[j].prefix == p.prefix {
      error := PrefixTwice(Of(i));
    } else if Positive(Of(i), p.maxBytes).Err? {
      CountRefused(c, Of(i), p.maxBytes);
      error := Positive(Of(i), p.maxBytes).error;
    } else if p.maxEntries.Some? && Positive(Of(i), p.maxEntries.value).Err? {
      CountRefused(c, Of(i), p.maxEntries.value);
      error := Positive(Of(i), p.maxEntries.value).error;
    } else {
      NamedRefused(c, Of(i), GetOr(p.policy, PolicyName(c)), bound, PartitionPercent(c, p));
      error := NamedPolicy(Of(i), GetOr(p.policy, PolicyName(c)), bound, PartitionPercent(c, p)).error;
    }
  }

  // A partition that states no entry count has the share of the whole's its bytes are of the whole's, one
  // at the least.
  lemma PartitionEntriesAre(total: CacheBound, p: PartitionConfig)
    requires total.maxBytes > 0
    ensures p.maxEntries.Some? ==> PartitionEntries(total, p) == p.maxEntries.value
    ensures p.maxEntries.None? ==>
              var entries := PartitionEntries(total, p);
              && 1 <= entries <= WORD_MAX
              && (1 < entries < WORD_MAX ==>
                    entries * total.maxBytes <= total.maxEntries * p.maxBytes < (entries + 1) * total.maxBytes)
              && (entries == 1 ==> total.maxEntries * p.maxBytes < 2 * total.maxBytes)
  {
    var share := total.maxEntries * p.maxBytes / total.maxBytes;
    assert total.maxEntries * p.maxBytes == share * total.maxBytes + total.maxEntries * p.maxBytes % total.maxBytes;
    if share <= 1 {
      Twice(share, total.maxBytes);
    }
  }

  lemma Twice(share: nat, bytes: nat)
    requires share <= 1
    ensures share * bytes <= bytes
  {
  }

  // ---- building the policy ----

  // One partition's budget and policy, or why it has none.
  method BuildPartition(c: CacheConfig, i: nat, built: seq<(string, Built)>)
    returns (r: Result<(string, Built), ConfigError>)
    requires WholeValid(c) && i < |c.partitions| && |built| == i
    requires forall j | 0 <= j < i :: built[j].0 == c.partitions[j].prefix
    ensures r.Ok? <==> PartitionValid(c, i)
    ensures r.Ok? ==> r.value == DescribedPartition(c, i)
    ensures r.Err? ==> Deserves(c, r.error)
  {
    var partition, total := c.partitions[i], Total(c);
    if partition.prefix == "" {
      return Err(EmptyPrefix(Of(i)));
    }
    if exists j | 0 <= j < |built| :: built[j].0 == partition.prefix {
      return Err(PrefixTwice(Of(i)));
    }
    var bytes := Positive(Of(i), partition.maxBytes);
    if bytes.Err? {
      CountRefused(c, Of(i), partition.maxBytes);
      return Err(bytes.error);
    }
    var entries := PartitionEntries(total, partition);
    if partition.maxEntries.Some? {
      var given := Positive(Of(i), partition.maxEntries.value);
      if given.Err? {
        CountRefused(c, Of(i), partition.maxEntries.value);
        return Err(given.error);
      }
    }
    var named := NamedPolicy(Of(i), GetOr(partition.policy, PolicyName(c)), CacheBound(entries, partition.maxBytes),
                             PartitionPercent(c, partition));
    match named
    case Ok(policy) => return Ok((partition.prefix, policy));
    case Err(e) =>
      NamedRefused(c, Of(i), GetOr(partition.policy, PolicyName(c)), CacheBound(entries, partition.maxBytes),
                   PartitionPercent(c, partition));
      return Err(e);
  }

  // The table's policy, exactly when the table is acceptable.
  method ToPolicy(c: CacheConfig) returns (r: Result<BuiltCache, ConfigError>)
    ensures r.Ok? <==> Acceptable(c)
    ensures r.Ok? ==> r.value == Described(c)
    ensures r.Err? ==> Deserves(c, r.error)
  {
    var total := Total(c);
    var entries := Positive(Whole, total.maxEntries);
    if entries.Err? {
      CountRefused(c, Whole, total.maxEntries);
      return Err(entries.error);
    }
    var bytes := Positive(Whole, total.maxBytes);
    if bytes.Err? {
      CountRefused(c, Whole, total.maxBytes);
      return Err(bytes.error);
    }
    var whole := NamedPolicy(Whole, PolicyName(c), total, c.protectedPercent);
    if whole.Err? {
      NamedRefused(c, Whole, PolicyName(c), total, c.protectedPercent);
      return Err(whole.error);
    }
    if c.partitions == [] {
      return Ok(BuiltCache([], whole.value));
    }
    var rest := total;
    var built: seq<(string, Built)> := [];
    for i := 0 to |c.partitions|
      invariant |built| == i
      invariant forall j | 0 <= j < i :: PartitionValid(c, j) && built[j] == DescribedPartition(c, j)
      invariant rest == CacheBound(SatSub(total.maxEntries, TakenEntries(c, i)),
                                   SatSub(total.maxBytes, TakenBytes(c, i)))
    {
      var partition := BuildPartition(c, i, built);
      if partition.Err? {
        return Err(partition.error);
      }
      rest := CacheBound(SatSub(rest.maxEntries, partition.value.1.bound.maxEntries),
                         SatSub(rest.maxBytes, partition.value.1.bound.maxBytes));
      built := built + [partition.value];
    }
    if rest.maxEntries == 0 || rest.maxBytes == 0 {
      return Err(NothingLeft);
    }
    var left := NamedPolicy(Whole, PolicyName(c), rest, c.protectedPercent);
    return Ok(BuiltCache(built, left.value));
  }

  // ---- the policies as the cache asks them ----

  function SomeFacts(facts: EntryFacts): bool { true }

  function Density(facts: EntryFacts): nat {
    var bytes := if facts.bytes < 1 then 1 else facts.bytes;
    SatMul(SatMul(GetOr(facts.costMillis, 0), 1024), SatAdd(facts.hits, 1)) / bytes
  }

  function CostAwareVictim(resident: seq<EntryFacts>): Option<nat> {
    if forall i | 0 <= i < |resident| :: resident[i].costMillis.None? then
      ArgMin(resident, (facts: EntryFacts) => facts.lastUsedTick)
    else
      Least(resident, SomeFacts, (a: EntryFacts, b: EntryFacts) =>
              Density(a) < Density(b) || (Density(a) == Density(b) && a.lastUsedTick < b.lastUsedTick))
  }

  // A built policy while one store holds the lock; only the scan-resistant one reads a sketch.
  function AsCachePolicy(b: Built, sketch: SketchState): CachePolicy
    requires |sketch.counters| > 0 && (b.kind.ScanKind? ==> b.kind.percent <= 99)
  {
    var admit := (facts: EntryFacts) => facts.bytes <= b.bound.maxBytes;
    match b.kind
    case LruKind => Lru(b.bound)
    case FifoKind =>
      CachePolicy(b.bound, admit, resident => ArgMin(resident, (facts: EntryFacts) => facts.storedTick),
                  (facts, resident) => true, false, resident => false)
    case CostAwareKind =>
      CachePolicy(b.bound, admit, resident => CostAwareVictim(resident), (facts, resident) => true, false,
                  resident => false)
    case ScanKind(percent) => ScanResistant(b.bound, percent, sketch)
  }

  ghost predicate WellBuilt(b: Built) { b.kind.ScanKind? ==> b.kind.percent <= 99 }

  ghost predicate AllWellBuilt(b: BuiltCache) {
    WellBuilt(b.rest) && forall i | 0 <= i < |b.given| :: WellBuilt(b.given[i].1)
  }

  function AsPartitions(b: BuiltCache, sketch: SketchState): Partitions
    requires |sketch.counters| > 0 && AllWellBuilt(b)
  {
    Partitions(seq(|b.given|, i requires 0 <= i < |b.given| =>
                     Partition(b.given[i].0, AsCachePolicy(b.given[i].1, sketch))),
               AsCachePolicy(b.rest, sketch))
  }

  // The same, put together as the source does: each partition added in turn.
  function Assembled(b: BuiltCache, sketch: SketchState, n: nat): Partitions
    requires |sketch.counters| > 0 && AllWellBuilt(b) && n <= |b.given|
  {
    if n == 0 then Partitions([], AsCachePolicy(b.rest, sketch))
    else
      Assembled(b, sketch, n - 1).Add(Partition(b.given[n - 1].0, AsCachePolicy(b.given[n - 1].1, sketch)))
  }

  // Adding keeps every partition whose prefix none before it has.
  lemma {:induction false} AssembledIs(b: BuiltCache, sketch: SketchState, n: nat)
    requires |sketch.counters| > 0 && AllWellBuilt(b) && n <= |b.given|
    requires forall i, j | 0 <= i < j < n :: b.given[i].0 != b.given[j].0
    ensures Assembled(b, sketch, n) == Partitions(AsPartitions(b, sketch).given[..n], AsCachePolicy(b.rest, sketch))
    decreases n
  {
    if n > 0 {
      AssembledIs(b, sketch, n - 1);
      var given := AsPartitions(b, sketch).given;
      assert given[..n] == given[..n - 1] + [given[n - 1]];
      assert forall i | 0 <= i < n - 1 :: given[..n - 1][i].prefix == b.given[i].0;
    }
  }

  // No partition of an accepted table is dropped for its prefix.
  lemma AcceptedAssembles(c: CacheConfig, sketch: SketchState)
    requires Acceptable(c) && |sketch.counters| > 0 && AllWellBuilt(Described(c))
    ensures Assembled(Described(c), sketch, |c.partitions|) == AsPartitions(Described(c), sketch)
  {
    var b := Described(c);
    forall i, j | 0 <= i < j < |b.given| ensures b.given[i].0 != b.given[j].0 {
      assert PartitionValid(c, j);
    }
    AssembledIs(b, sketch, |b.given|);
    assert AsPartitions(b, sketch).given[..|b.given|] == AsPartitions(b, sketch).given;
  }

  // The policy installed for a table: the one it names, or the partitioned one.
  function Installed(b: BuiltCache, sketch: SketchState): CachePolicy
    requires |sketch.counters| > 0 && AllWellBuilt(b)
  {
    if b.given == [] then AsCachePolicy(b.rest, sketch) else AsPartitions(b, sketch).AsPolicy()
  }

  lemma DescribedIsWellBuilt(c: CacheConfig)
    requires Acceptable(c)
    ensures AllWellBuilt(Described(c))
  {
    forall i | 0 <= i < |c.partitions| ensures WellBuilt(DescribedPartition(c, i).1) {
      assert PartitionValid(c, i);
    }
  }

  // ---- what an accepted table promises ----

  lemma DescribedBudget(c: CacheConfig, sketch: SketchState, i: nat)
    requires Acceptable(c) && |sketch.counters| > 0 && AllWellBuilt(Described(c)) && i < |c.partitions|
    ensures AsPartitions(Described(c), sketch).given[i].policy.capacity
            == CacheBound(PartitionEntries(Total(c), c.partitions[i]), c.partitions[i].maxBytes)
  {
    assert PartitionValid(c, i);
  }

  lemma {:induction false} CapacityAddsUp(c: CacheConfig, sketch: SketchState, n: nat)
    requires Acceptable(c) && |sketch.counters| > 0 && AllWellBuilt(Described(c)) && n <= |c.partitions|
    ensures var capacity := AsPartitions(Described(c), sketch).Capacity(n);
            && capacity.maxEntries + TakenEntries(c, |c.partitions|) == Total(c).maxEntries + TakenEntries(c, n)
            && capacity.maxBytes + TakenBytes(c, |c.partitions|) == Total(c).maxBytes + TakenBytes(c, n)
    decreases n
  {
    if n > 0 {
      CapacityAddsUp(c, sketch, n - 1);
      DescribedBudget(c, sketch, n - 1);
      TakenGrows(c, n);
    }
  }

  lemma {:induction false} TakenGrows(c: CacheConfig, n: nat)
    requires n <= |c.partitions| && Total(c).maxBytes > 0
    ensures TakenEntries(c, n) <= TakenEntries(c, |c.partitions|) && TakenBytes(c, n) <= TakenBytes(c, |c.partitions|)
    decreases |c.partitions| - n
  {
    if n < |c.partitions| {
      TakenGrows(c, n + 1);
    }
  }

  // Every accepted table's policy has exactly the configured totals for its capacity: no
  // subtraction on the way ran out, and no sum on the way back saturated.
  lemma AcceptedConservesTotal(c: CacheConfig, sketch: SketchState)
    requires Acceptable(c) && |sketch.counters| > 0
    ensures AllWellBuilt(Described(c)) && Installed(Described(c), sketch).capacity == Total(c)
  {
    DescribedIsWellBuilt(c);
    if c.partitions != [] {
      CapacityAddsUp(c, sketch, |c.partitions|);
    }
  }

  // Every policy a table can name always has a victim for a cache that holds anything.
  lemma BuiltNamesVictims(b: Built, sketch: SketchState)
    requires |sketch.counters| > 0 && WellBuilt(b)
    ensures NamesVictims(AsCachePolicy(b, sketch))
  {
    forall resident: seq<EntryFacts> | resident != []
      ensures AsCachePolicy(b, sketch).victim(resident).Some?
              && AsCachePolicy(b, sketch).victim(resident).value < |resident|
    {
      if b.kind.ScanKind? {
        ScanNamesVictim(b.bound, b.kind.percent, resident);
      } else if b.kind.CostAwareKind? {
        assert SomeFacts(resident[0]);
      }
    }
  }

  lemma ScanNamesVictim(bound: CacheBound, percent: nat, resident: seq<EntryFacts>)
    requires percent <= 99 && resident != []
    ensures ScanVictim(bound, percent, resident).Some? && ScanVictim(bound, percent, resident).value < |resident|
  {
    if !IsProtected(resident[0]) && ProtectedOver(bound, percent, resident) {
      PickedSome(resident);
    }
  }

  // A segment that is over anything is not empty.
  lemma {:induction false} PickedSome(resident: seq<EntryFacts>)
    ensures (forall i | 0 <= i < |resident| :: !IsProtected(resident[i])) ==> ProtectedOf(resident) == []
  {
    if resident != [] {
      var n := |resident| - 1;
      PickedSome(resident[..n]);
      assert forall i | 0 <= i < n :: resident[..n][i] == resident[i];
    }
  }

  // ---- runs under an accepted table ----

  // Totals whose bytes can be counted twice over, and entries once more, within the word.
  predicate CountableTotal(c: CacheConfig) {
    Countable(Total(c)) && Total(c).maxEntries < WORD_MAX
  }

  // Only what a sketch has counted differs between the policies of two stores: prefixes and
  // bounds do not.
  lemma {:induction false} SketchPrefixes(b: BuiltCache, x: SketchState, y: SketchState, target: string, n: nat)
    requires |x.counters| > 0 && |y.counters| > 0 && AllWellBuilt(b) && n <= |b.given|
    ensures AsPartitions(b, x).LongestPrefix(target, n) == AsPartitions(b, y).LongestPrefix(target, n)
  {
    if n > 0 {
      SketchPrefixes(b, x, y, target, n - 1);
    }
  }

  lemma SketchSamePart(b: BuiltCache, x: SketchState, y: SketchState, partition: nat)
    requires |x.counters| > 0 && |y.counters| > 0 && AllWellBuilt(b)
    ensures forall slot: Slot ::
              InPart(AsPartitions(b, x), partition)(slot) == InPart(AsPartitions(b, y), partition)(slot)
  {
    forall slot: Slot
      ensures InPart(AsPartitions(b, x), partition)(slot) == InPart(AsPartitions(b, y), partition)(slot)
    {
      SketchPrefixes(b, x, y, slot.target, |b.given|);
    }
  }

  lemma SameRule(entries: map<CacheKey, Slot>, f: Slot -> bool, g: Slot -> bool)
    requires forall slot :: f(slot) == g(slot)
    ensures Where(entries, f) == Where(entries, g)
  {
  }

  lemma SketchSameBound(b: BuiltCache, x: SketchState, y: SketchState, partition: nat)
    requires |x.counters| > 0 && |y.counters| > 0 && AllWellBuilt(b)
    ensures AsPartitions(b, x).Policy(partition).capacity == AsPartitions(b, y).Policy(partition).capacity
  {
  }

  lemma SketchSameWithin(b: BuiltCache, x: SketchState, y: SketchState, entries: map<CacheKey, Slot>, partition: nat)
    requires |x.counters| > 0 && |y.counters| > 0 && AllWellBuilt(b)
    requires PartWithin(AsPartitions(b, x), entries, partition)
    ensures PartWithin(AsPartitions(b, y), entries, partition)
  {
    SketchSamePart(b, x, y, partition);
    SketchSameBound(b, x, y, partition);
    SameRule(entries, InPart(AsPartitions(b, x), partition), InPart(AsPartitions(b, y), partition));
  }

  lemma SketchIrrelevant(b: BuiltCache, x: SketchState, y: SketchState, entries: map<CacheKey, Slot>)
    requires |x.counters| > 0 && |y.counters| > 0 && AllWellBuilt(b)
    requires AllWithin(AsPartitions(b, x), entries)
    ensures AllWithin(AsPartitions(b, y), entries)
  {
    forall partition | 0 <= partition <= |b.given| ensures PartWithin(AsPartitions(b, y), entries, partition) {
      assert PartWithin(AsPartitions(b, x), entries, partition);
      SketchSameWithin(b, x, y, entries, partition);
    }
  }

  lemma BuiltAdmits(b: Built, sketch: SketchState, facts: EntryFacts)
    requires |sketch.counters| > 0 && WellBuilt(b)
    ensures AsCachePolicy(b, sketch).admit(facts) <==> facts.bytes <= b.bound.maxBytes
  {
  }

  // Nothing larger than the whole byte bound is admitted.
  lemma AdmitsWithinTotal(c: CacheConfig, sketch: SketchState, facts: EntryFacts)
    requires Acceptable(c) && |sketch.counters| > 0 && AllWellBuilt(Described(c))
    requires Installed(Described(c), sketch).admit(facts)
    ensures facts.bytes <= Total(c).maxBytes
  {
    var b := Described(c);
    BuiltAdmits(b.rest, sketch, facts);
    if c.partitions != [] {
      var partition := AsPartitions(b, sketch).PartitionOf(facts.target);
      assert AsPartitions(b, sketch).Policy(partition).admit(facts);
      if partition < |c.partitions| {
        assert PartitionValid(c, partition);
        BuiltAdmits(b.given[partition].1, sketch, facts);
        assert b.given[partition].1.bound.maxBytes == c.partitions[partition].maxBytes;
        assert c.partitions[partition].maxBytes <= TakenBytes(c, partition + 1);
        TakenGrows(c, partition + 1);
      }
    }
  }

  // A plain policy that always has a victim, and counts exactly, leaves nothing over.
  lemma {:induction false} PlainEnforces(s: CacheState, policy: CachePolicy, end: CacheState)
    requires NamesVictims(policy) && Accounted(s) && s.Enforced(policy, end)
    ensures Accounted(end) && !end.Over(policy.capacity)
    decreases |s.entries|
  {
    var keys :| Lists(keys, s.entries.Keys) && s.EnforcedBy(policy, keys, end);
    ListsLength(keys, s.entries.Keys);
    assert |s.FactsOf(keys)| == |keys|;
    match s.Choice(policy, keys) {
      case None =>
        assert s.Over(policy.capacity) ==> s.entries == map[];
      case Some(key) =>
        Shrinks(s.entries, key);
        EvictKeepsAccount(s, key);
        PlainEnforces(s.Evict(key), policy, end);
    }
  }

  // The state a run under the table is always in.
  ghost predicate Held(c: CacheConfig, sketch: SketchState, s: CacheState)
    requires Acceptable(c) && |sketch.counters| > 0 && AllWellBuilt(Described(c))
  {
    && Accounted(s) && !s.Over(Total(c))
    && (c.partitions != [] ==> AllWithin(AsPartitions(Described(c), sketch), s.entries))
  }

  lemma StoreHolds(c: CacheConfig, sketch: SketchState, s: CacheState, offered: Candidate,
                   outcome: Result<(), Declined>, end: CacheState)
    requires Acceptable(c) && CountableTotal(c) && |sketch.counters| > 0 && AllWellBuilt(Described(c))
    requires Held(c, sketch, s) && s.Stores(Installed(Described(c), sketch), offered, outcome, end)
    ensures Held(c, sketch, end)
  {
    var b, policy := Described(c), Installed(Described(c), sketch);
    AcceptedConservesTotal(c, sketch);
    if outcome.Ok? {
      assert policy.admit(s.Ticked().CandidateFacts(offered));
      AdmitsWithinTotal(c, sketch, s.Ticked().CandidateFacts(offered));
    }
    if c.partitions == [] {
      BuiltNamesVictims(b.rest, sketch);
      PlainStores(s, policy, offered, outcome, end);
    } else {
      PartitionsNameVictims(b, sketch);
      PartitionedStores(AsPartitions(b, sketch), s, offered, outcome, end);
    }
  }

  lemma PartitionsNameVictims(b: BuiltCache, sketch: SketchState)
    requires |sketch.counters| > 0 && AllWellBuilt(b)
    ensures AllNameVictims(AsPartitions(b, sketch))
  {
    BuiltNamesVictims(b.rest, sketch);
    forall i | 0 <= i < |b.given| ensures NamesVictims(AsPartitions(b, sketch).given[i].policy) {
      BuiltNamesVictims(b.given[i].1, sketch);
    }
  }

  lemma PlainStores(s: CacheState, policy: CachePolicy, offered: Candidate, outcome: Result<(), Declined>,
                    end: CacheState)
    requires NamesVictims(policy) && s.Stores(policy, offered, outcome, end)
    requires Accounted(s) && !s.Over(policy.capacity)
    requires outcome.Ok? ==> s.bytes + BodySize(offered.representation.body) <= WORD_MAX
    ensures Accounted(end) && !end.Over(policy.capacity)
  {
    if outcome.Ok? {
      var ticked, limit := s.Ticked(), policy.capacity.maxEntries;
      var kept: CacheState :| ticked.Filed(offered).Enforced(policy, kept) && end == kept.Sweep(limit);
      RestSum(ticked, offered.key);
      FiledAccount(ticked, offered);
      PlainEnforces(ticked.Filed(offered), policy, kept);
      SweepKeepsEntries(kept, limit);
    }
  }

  // A run under the table: the sketch may have counted anything by each step.
  ghost predicate IsHeldRun(c: CacheConfig, sketches: seq<SketchState>, run: seq<CacheState>, steps: seq<Step>)
    requires Acceptable(c)
  {
    && AllWellBuilt(Described(c))
    && |run| == |steps| + 1 && |sketches| == |steps| && run[0] == EMPTY
    && (forall i | 0 <= i < |sketches| :: |sketches[i].counters| > 0)
    && forall i | 0 <= i < |steps| :: HeldNext(c, sketches[i], run[i], steps[i], run[i + 1])
  }

  // Any operation, under the policy the table installs.
  ghost predicate HeldNext(c: CacheConfig, sketch: SketchState, s: CacheState, step: Step, s': CacheState)
    requires Acceptable(c) && AllWellBuilt(Described(c)) && |sketch.counters| > 0
  {
    Steps(s, step, s', Installed(Described(c), sketch))
  }

  lemma HeldNextHolds(c: CacheConfig, sketch: SketchState, s: CacheState, step: Step, s': CacheState)
    requires Acceptable(c) && CountableTotal(c) && AllWellBuilt(Described(c)) && |sketch.counters| > 0
    requires Held(c, sketch, s) && HeldNext(c, sketch, s, step, s')
    ensures Held(c, sketch, s')
  {
    if step.Storing? {
      StoreHolds(c, sketch, s, step.c, step.outcome, s');
    } else {
      OthersHold(c, sketch, s, step, s', Installed(Described(c), sketch));
    }
  }

  // Only a store asks the policy.
  lemma OthersHold(c: CacheConfig, sketch: SketchState, s: CacheState, step: Step, s': CacheState, policy: CachePolicy)
    requires Acceptable(c) && |sketch.counters| > 0 && AllWellBuilt(Described(c)) && Held(c, sketch, s)
    requires !step.Storing? && Steps(s, step, s', policy)
    ensures Held(c, sketch, s')
  {
    if step.Serving? {
      ServeHolds(c, sketch, s, step.key, step.now, step.face, step.offer);
    } else if step.Discarding? {
      DiscardHolds(c, sketch, s, step.discarded, step.tick);
    } else {
      QuietSteps(s, step, s', policy);
      QuietHolds(c, sketch, s, s');
    }
  }

  // Failures and cuts leave the residents and their bytes alone.
  lemma QuietSteps(s: CacheState, step: Step, s': CacheState, policy: CachePolicy)
    requires Steps(s, step, s', policy) && (step.StoringFailure? || step.ServingFailure? || step.Cutting?)
    ensures s'.entries == s.entries && s'.bytes == s.bytes
  {
  }

  lemma QuietHolds(c: CacheConfig, sketch: SketchState, s: CacheState, s': CacheState)
    requires Acceptable(c) && |sketch.counters| > 0 && AllWellBuilt(Described(c)) && Held(c, sketch, s)
    requires s'.entries == s.entries && s'.bytes == s.bytes
    ensures Held(c, sketch, s')
  {
  }

  lemma DiscardHolds(c: CacheConfig, sketch: SketchState, s: CacheState, key: CacheKey, tick: nat)
    requires Acceptable(c) && |sketch.counters| > 0 && AllWellBuilt(Described(c)) && Held(c, sketch, s)
    ensures Held(c, sketch, s.Discards(key, tick))
  {
    if key in s.entries {
      Shrinks(s.entries, key);
      EvictKeepsAccount(s, key);
      if c.partitions != [] {
        EvictingKeepsParts(AsPartitions(Described(c), sketch), s, key);
      }
    }
  }

  lemma EvictingKeepsParts(p: Partitions, s: CacheState, key: CacheKey)
    requires AllWithin(p, s.entries) && key in s.entries
    ensures AllWithin(p, s.Evict(key).entries)
  {
    forall partition | 0 <= partition <= |p.given| ensures PartWithin(p, s.Evict(key).entries, partition) {
      assert PartWithin(p, s.entries, partition);
      EvictShrinksPart(p, s, key, partition);
    }
  }

  lemma ServeHolds(c: CacheConfig, sketch: SketchState, s: CacheState, key: CacheKey, now: Option<Time>,
                   face: Slot -> bool, offer: Slot -> bool)
    requires Acceptable(c) && |sketch.counters| > 0 && AllWellBuilt(Described(c)) && Held(c, sketch, s)
    ensures Held(c, sketch, s.Serves(key, now, face, offer).1)
  {
    ServeShape(s, key, now, face, offer);
    ServeKeepsAccount(s, key, now, face, offer);
    if key in s.entries {
      Shrinks(s.entries, key);
      assert Touched(s, key).entries.Keys == s.entries.Keys;
    }
    if c.partitions != [] {
      ServingKeepsParts(AsPartitions(Described(c), sketch), s, key, now, face, offer);
    }
  }

  lemma EmptyHolds(c: CacheConfig, sketch: SketchState)
    requires Acceptable(c) && |sketch.counters| > 0 && AllWellBuilt(Described(c))
    ensures Held(c, sketch, EMPTY)
  {
    var p := AsPartitions(Described(c), sketch);
    forall partition | 0 <= partition <= |p.given| ensures PartWithin(p, map[], partition) {
      assert PartOf(p, map[], partition) == map[];
    }
  }

  // In every run of stores, lookups, cuts, discards and failures under an accepted table whose totals
  // are countable: an exact byte total, never more than the configured entries and bytes, and every
  // partition within its own.
  lemma {:induction false} AcceptedRunsHold(c: CacheConfig, sketches: seq<SketchState>, run: seq<CacheState>,
                                            steps: seq<Step>, sketch: SketchState)
    requires Acceptable(c) && CountableTotal(c) && IsHeldRun(c, sketches, run, steps) && |sketch.counters| > 0
    ensures Held(c, sketch, run[|steps|])
    decreases |steps|
  {
    if steps == [] {
      EmptyHolds(c, sketch);
    } else {
      var n := |steps| - 1;
      AcceptedRunsHold(c, sketches[..n], run[..n + 1], steps[..n], sketches[n]);
      HeldNextHolds(c, sketches[n], run[n], steps[n], run[n + 1]);
      if c.partitions != [] {
        SketchIrrelevant(Described(c), sketches[n], sketch, run[n + 1].entries);
      }
    }
  }
}
