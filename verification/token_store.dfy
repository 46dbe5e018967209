/** The in-memory token cache (memory_token_store.go): one cell holding the
    last OAuth token and the instant it expires. The wall clock is a
    parameter: instants are nanoseconds on the UTC time line. */
module TokenStore {
  import opened Wrappers

  // ---------------------------------------------------------------------------
  // Go's 64-bit integers
  // ---------------------------------------------------------------------------

  const MinInt64: int := -0x8000_0000_0000_0000
  const MaxInt64: int := 0x7FFF_FFFF_FFFF_FFFF
  const TwoTo64: int := 0x1_0000_0000_0000_0000

  type Int64 = x: int | MinInt64 <= x <= MaxInt64

  /** Two's-complement wrap-around of an int64 result. */
  function Wrap64(x: int): (r: Int64)
    ensures MinInt64 <= x <= MaxInt64 ==> r == x
    ensures (r - x) % TwoTo64 == 0
  {
    (x - MinInt64) % TwoTo64 + MinInt64
  }

  /** `time.Second`, in nanoseconds. */
  const Second: int := 1_000_000_000

  /** `time.Duration(s) * time.Second`: an int64 multiplication, which wraps. */
  function Seconds(s: Int64): Int64
  {
    Wrap64(s * Second)
  }

  /** The largest number of seconds whose duration does not wrap. */
  const MaxSeconds: int := MaxInt64 / Second

  // ---------------------------------------------------------------------------
  // Token and store
  // ---------------------------------------------------------------------------

  /** `Token`: the OAuth token as the token endpoint returns it. Go's `int`
      is 64 bits wide here. */
  datatype Token = Token(accessToken: string, tokenType: string, expiresIn: Int64, scope: string, jti: string)

  /** `MemoryTokenStore` without its lock: the token, if any, and the
      instant after which it is no longer handed out. */
  datatype MemoryTokenStore = MemoryTokenStore(token: Option<Token>, expiration: int)

  /** The zero store: no token. */
  const EmptyStore := MemoryTokenStore(None, 0)

  /** `MemoryTokenStore.Token` at instant `now`: the token is handed out
      while the clock is not strictly after its expiration, so the
      expiration instant itself still counts as valid. */
  function Lookup(m: MemoryTokenStore, now: int): (r: (bool, Option<Token>))
    ensures r.0 <==> r.1.Some?
    ensures r.0 <==> m.token.Some? && now <= m.expiration
    ensures r.0 ==> r.1 == m.token
  {
    if m.token.Some? && !(now > m.expiration) then (true, m.token) else (false, None)
  }

  /** `MemoryTokenStore.Update` at instant `now`: token and expiration are
      both replaced, whatever the store held. */
  function Update(m: MemoryTokenStore, t: Token, now: int): (r: MemoryTokenStore)
    ensures r.token == Some(t)
    ensures -MaxSeconds <= t.expiresIn <= MaxSeconds ==> r.expiration == now + t.expiresIn * Second
  {
    assert -MaxSeconds <= t.expiresIn <= MaxSeconds ==> MinInt64 <= t.expiresIn * Second <= MaxInt64;
    MemoryTokenStore(Some(t), now + Seconds(t.expiresIn))
  }

  // ---------------------------------------------------------------------------
  // Properties
  // ---------------------------------------------------------------------------

  /** A fresh store never hands out a token. */
  lemma EmptyStoreLookup(now: int)
    ensures Lookup(EmptyStore, now) == (false, None)
  {
  }

  /** What the store held before an update has no influence afterwards. */
  lemma UpdateForgets(m1: MemoryTokenStore, m2: MemoryTokenStore, t: Token, now: int)
    ensures Update(m1, t, now) == Update(m2, t, now)
  {
  }

  /** A token whose lifetime fits in a Duration is handed out up to and
      including `now + expiresIn` seconds, and not after. */
  lemma UpdateThenLookup(m: MemoryTokenStore, t: Token, now: int, later: int)
    requires -MaxSeconds <= t.expiresIn <= MaxSeconds
    ensures Lookup(Update(m, t, now), later)
         == if later <= now + t.expiresIn * Second then (true, Some(t)) else (false, None)
  {
  }

  /** Past its expiration, nothing is handed out. */
  lemma ExpiredLookup(m: MemoryTokenStore, now: int)
    requires now > m.expiration
    ensures Lookup(m, now) == (false, None)
  {
  }

  /** A token with a negative lifetime is never handed out at or after its
      update, as long as the lifetime does not wrap. */
  lemma NegativeLifetimeNeverValid(m: MemoryTokenStore, t: Token, now: int, later: int)
    requires -MaxSeconds <= t.expiresIn < 0 && later >= now
    ensures Lookup(Update(m, t, now), later) == (false, None)
  {
    assert Seconds(t.expiresIn) == t.expiresIn * Second;
  }

  /** The multiplication wraps for lifetimes beyond about 292 years: an
      `expires_in` of 9223372037 seconds yields a token that is already
      expired when it is stored. */
  lemma HugeLifetimeWraps(m: MemoryTokenStore, t: Token, now: int)
    requires t.expiresIn == MaxSeconds + 1
    ensures Update(m, t, now).expiration < now
    ensures Lookup(Update(m, t, now), now) == (false, None)
  {
    assert t.expiresIn * Second == 9_223_372_037_000_000_000;
    assert Seconds(t.expiresIn) == 9_223_372_037_000_000_000 - TwoTo64;
  }
}
