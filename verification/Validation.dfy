/**
 * The caller's validation context and replay cache (src/model/validation.rs).
 *
 * The functions say what each operation does to the cached entries; the classes
 * carry the operations out on a shared cache object.
 */
module Validation {
  import opened Prelude
  import opened Instants
  import opened ReplayKeys

  datatype ReplayPolicy = DisabledForCompatibility | RequireCache

  /** What one inbound call is validated against, apart from the cache itself. */
  datatype Context = Context(
    now: SystemTime,
    skew: ClockSkew,
    platform: Platform,
    retention: Option<nat>,
    policy: ReplayPolicy,
    outage: Outage)

  /**
   * Cache keys whose storage fails during one call: the error that is reported, and whether
   * a new key was stored all the same.
   */
  type Outage = map<string, StorageFailure>

  datatype StorageFailure = StorageFailure(error: SamlError, stored: bool)

  /** The instants from which the metadata of the two sides is no longer valid, where declared. */
  datatype MetadataBounds = MetadataBounds(local: Option<Instant>, peer: Option<Instant>)

  /** `Metadata::validate_at` (src/metadata/mod.rs). */
  function MetadataVerdict(validUntil: Option<Instant>, now: SystemTime): Result<(), SamlError> {
    var t :- InstantFromSystem(now);
    if validUntil.Some? && t >= validUntil.value then Err(TimeWindowInvalid(MetadataValidUntil)) else Ok(())
  }

  type Entries = map<string, SystemTime>

  /** Outcome of a cache operation: its result and the entries it leaves. */
  datatype Stored = Stored(result: Result<(), SamlError>, entries: Entries)

  function NowOffset(ctx: Context): Result<Instant, SamlError> {
    InstantFromSystem(ctx.now)
  }

  /**
   * The contract of `check_and_store`: reject a key still held, else hold it until
   * `expiresAt`, unless the storage fails.
   */
  function Store(outage: Outage, entries: Entries, key: ReplayKey, expiresAt: SystemTime): Stored {
    var k := key.CacheKey();
    if k in outage then
      Stored(Err(outage[k].error), if outage[k].stored && k !in entries then entries[k := expiresAt] else entries)
    else if k in entries then Stored(Err(ReplayDetected(k)), entries)
    else Stored(Ok(()), entries[k := expiresAt])
  }

  function RequirePendingExpiration(ctx: Context, deadline: Option<Instant>): Result<(), SamlError> {
    if ctx.policy.RequireCache? && deadline.None? then Err(TimeWindowInvalid(PendingRequestExpiration))
    else Ok(())
  }

  function MessageReplayExpiresAt(ctx: Context): Result<SystemTime, SamlError> {
    match ctx.retention
    case None => Err(TimeWindowInvalid(ReplayExpiration))
    case Some(retention) =>
      if retention == 0 then Err(TimeWindowInvalid(ReplayExpiration))
      else
        match ctx.platform.CheckedAdd(ctx.now, retention)
        case None => Err(TimeWindowInvalid(ReplayExpiration))
        case Some(expiresAt) => Ok(expiresAt)
  }

  function MessageDeadline(ctx: Context, derived: Option<Instant>): Result<SystemTime, SamlError> {
    match derived
    case None => MessageReplayExpiresAt(ctx)
    case Some(deadline) => SystemFromInstant(deadline, ctx.platform)
  }

  function StoreMessage(ctx: Context, entries: Entries, key: ReplayKey): Stored {
    StoreMessageUntil(ctx, entries, key, None)
  }

  function StoreMessageUntil(ctx: Context, entries: Entries, key: ReplayKey, derived: Option<Instant>): Stored {
    if ctx.policy.DisabledForCompatibility? then Stored(Ok(()), entries)
    else
      match MessageDeadline(ctx, derived)
      case Err(e) => Stored(Err(e), entries)
      case Ok(expiresAt) => Store(ctx.outage, entries, key, expiresAt)
  }

  /** A caller-owned cache that meets the documented contract, and the outages of its storage. */
  class ReplayCache {
    var entries: Entries
    var outage: Outage

    constructor (outage: Outage)
      ensures entries == map[] && this.outage == outage
    {
      entries := map[];
      this.outage := outage;
    }

    method CheckAndStore(key: ReplayKey, expiresAt: SystemTime) returns (r: Result<(), SamlError>)
      modifies this`entries
      ensures Stored(r, entries) == Store(outage, old(entries), key, expiresAt)
    {
      var k := key.CacheKey();
      if k in outage {
        if outage[k].stored && k !in entries {
          entries := entries[k := expiresAt];
        }
        return Err(outage[k].error);
      }
      if k in entries {
        return Err(ReplayDetected(k));
      }
      entries := entries[k := expiresAt];
      r := Ok(());
    }
  }

  class SamlValidationContext {
    const view: Context
    const cache: ReplayCache?

    constructor (view: Context, cache: ReplayCache?)
      requires view.policy.RequireCache? <==> cache != null
      requires cache != null ==> cache.outage == view.outage
      ensures this.view == view && this.cache == cache && Valid()
    {
      this.view := view;
      this.cache := cache;
    }

    ghost predicate Valid()
      reads cache
    {
      && (view.policy.RequireCache? <==> cache != null)
      && (cache != null ==> cache.outage == view.outage)
    }

    ghost function Cached(): Entries
      reads cache
    {
      if cache == null then map[] else cache.entries
    }

    method CheckAndStoreMessageReplay(key: ReplayKey) returns (r: Result<(), SamlError>)
      requires Valid()
      modifies cache
      ensures Valid()
      ensures Stored(r, Cached()) == StoreMessage(view, old(Cached()), key)
    {
      if view.policy.DisabledForCompatibility? {
        return Ok(());
      }
      var expiresAt := MessageReplayExpiresAt(view);
      if expiresAt.Err? {
        return Err(expiresAt.error);
      }
      r := cache.CheckAndStore(key, expiresAt.value);
    }

    method CheckAndStoreMessageReplayUntil(key: ReplayKey, derived: Option<Instant>)
      returns (r: Result<(), SamlError>)
      requires Valid()
      modifies cache
      ensures Valid()
      ensures Stored(r, Cached()) == StoreMessageUntil(view, old(Cached()), key, derived)
    {
      if view.policy.DisabledForCompatibility? {
        return Ok(());
      }
      var expiresAt: Result<SystemTime, SamlError>;
      match derived {
        case Some(deadline) => expiresAt := SystemFromInstant(deadline, view.platform);
        case None => expiresAt := MessageReplayExpiresAt(view);
      }
      if expiresAt.Err? {
        return Err(expiresAt.error);
      }
      r := cache.CheckAndStore(key, expiresAt.value);
    }
  }
}
