/**
 * The Twitch token cache: choosing between the configured tokens and the
 * refreshed tokens kept in `.refreshed-token.json`, the wait before each
 * refresh, and the record each refresh writes back.
 */
module Token {
  import opened Wrappers
  import opened Text

  /** The Twitch part of the configuration. */
  datatype TwitchConfig = TwitchConfig(accessToken: string, refreshToken: string, clientSecret: string)

  /** The record kept in `.refreshed-token.json`. */
  datatype TokenCache = TokenCache(baseAccessToken: string, currentAccessToken: string, currentRefreshToken: string)

  /** The configured access token, the access token to use and the refresh token to use. */
  datatype Tokens = Tokens(original: string, access: string, refresh: string)

  /** The cache file as the loader finds it. */
  datatype CacheFile = Absent | Unreadable | Present(text: string)

  datatype CacheError = ReadFailed | ParseFailed

  datatype CacheLoad = Loaded(tokens: Tokens) | LoadFailed(error: CacheError)

  /** JSON decoding of a cache record; None when the text is not such a record. */
  type CacheDecoder = string -> Option<TokenCache>

  /** The tokens straight from the configuration. */
  function Configured(config: TwitchConfig): Tokens {
    Tokens(config.accessToken, config.accessToken, config.refreshToken)
  }

  /**
   * `get_token_from_cache`: no file or a blank one gives the configured
   * tokens; a record whose base is the configured access token gives its
   * current tokens; any other record is ignored; a file that cannot be read
   * or decoded is an error.
   */
  function GetTokenFromCache(file: CacheFile, config: TwitchConfig, decode: CacheDecoder): (r: CacheLoad)
    ensures r.Loaded? ==> r.tokens.original == config.accessToken
  {
    match file
    case Absent => Loaded(Configured(config))
    case Unreadable => LoadFailed(ReadFailed)
    case Present(text) =>
      if Trim(text) == [] then Loaded(Configured(config))
      else
        match decode(text)
        case None => LoadFailed(ParseFailed)
        case Some(cache) =>
          if cache.baseAccessToken == config.accessToken then
            Loaded(Tokens(config.accessToken, cache.currentAccessToken, cache.currentRefreshToken))
          else Loaded(Configured(config))
  }

  /** Loading fails only on an unreadable file, or on one that is not blank and does not decode. */
  lemma LoadFailsIff(file: CacheFile, config: TwitchConfig, decode: CacheDecoder)
    ensures GetTokenFromCache(file, config, decode).LoadFailed?
      <==> file.Unreadable? || (file.Present? && !AllWhiteSpace(file.text) && decode(file.text).None?)
  {
    if file.Present? {
      TrimEmptyIffBlank(file.text);
    }
  }

  /** A missing or blank cache file gives the configured tokens. */
  lemma BlankCacheIsIgnored(file: CacheFile, config: TwitchConfig, decode: CacheDecoder)
    requires file.Absent? || (file.Present? && AllWhiteSpace(file.text))
    ensures GetTokenFromCache(file, config, decode) == Loaded(Configured(config))
  {
    if file.Present? {
      TrimEmptyIffBlank(file.text);
    }
  }

  /**
   * The cached tokens are used exactly when a record decodes from a file
   * that is not blank and its base is the configured access token; otherwise
   * a successful load gives the configured tokens.
   */
  lemma CacheUsedOnlyForSameBase(file: CacheFile, config: TwitchConfig, decode: CacheDecoder)
    ensures var r := GetTokenFromCache(file, config, decode);
      var matching := file.Present? && !AllWhiteSpace(file.text) && decode(file.text).Some?
        && decode(file.text).value.baseAccessToken == config.accessToken;
      (matching ==> r == Loaded(Tokens(config.accessToken, decode(file.text).value.currentAccessToken,
                                       decode(file.text).value.currentRefreshToken)))
      && (!matching && r.Loaded? ==> r.tokens == Configured(config))
  {
    if file.Present? {
      TrimEmptyIffBlank(file.text);
    }
  }

  // ---------------------------------------------------------------------
  // The refresher
  // ---------------------------------------------------------------------

  /** The wait before a refresh, in nanoseconds: a fifth of the lifetime is left over. */
  function RefreshDelay(expiresIn: nat): (d: nat)
    ensures 4 * expiresIn <= 5 * d && d <= expiresIn
    ensures d == 0 <==> expiresIn == 0
  {
    expiresIn - expiresIn / 5
  }

  /**
   * What one round of the refresher gets back: the new access token (None
   * when the refresh request fails), the new refresh token (None when the
   * response has none), the lifetime of the new token in nanoseconds (None
   * when validating it fails), and whether writing the cache file succeeded.
   */
  datatype RefreshRound = RefreshRound(newAccess: Option<string>, newRefresh: Option<string>,
                                       expiresIn: Option<nat>, written: bool)

  /** Each of the round's steps succeeded; any failure panics the refresher. */
  predicate RoundSucceeds(r: RefreshRound) {
    r.newAccess.Some? && r.newRefresh.Some? && r.expiresIn.Some? && r.written
  }

  /** The record a successful round writes: the base stays the configured access token. */
  function RecordOf(base: string, r: RefreshRound): TokenCache
    requires RoundSucceeds(r)
  {
    TokenCache(base, r.newAccess.value, r.newRefresh.value)
  }

  /** The waits taken, the records written, and whether the refresher panicked. */
  datatype RefreshLog = RefreshLog(delays: seq<nat>, records: seq<TokenCache>, panicked: bool)

  /** The log of a run that does `a` and then `b`. */
  function Then(a: RefreshLog, b: RefreshLog): RefreshLog {
    RefreshLog(a.delays + b.delays, a.records + b.records, b.panicked)
  }

  /** The refresher over the given rounds, starting from a token with lifetime `expiresIn`. */
  function Refreshes(base: string, expiresIn: nat, rounds: seq<RefreshRound>): RefreshLog
    decreases |rounds|
  {
    if rounds == [] then RefreshLog([], [], false)
    else
      var r := rounds[0];
      var d := RefreshDelay(expiresIn);
      if !RoundSucceeds(r) then RefreshLog([d], [], true)
      else Then(RefreshLog([d], [RecordOf(base, r)], false), Refreshes(base, r.expiresIn.value, rounds[1..]))
  }

  /** `auto_refresh_token`, over a finite run of rounds. */
  method AutoRefresh(base: string, expiresIn: nat, rounds: seq<RefreshRound>) returns (log: RefreshLog)
    ensures log == Refreshes(base, expiresIn, rounds)
  {
    log := RefreshLog([], [], false);
    var lifetime := expiresIn;
    var i := 0;
    while i < |rounds|
      invariant 0 <= i <= |rounds|
      invariant !log.panicked
      invariant Then(log, Refreshes(base, lifetime, rounds[i..])) == Refreshes(base, expiresIn, rounds)
    {
      var r := rounds[i];
      var wait := RefreshDelay(lifetime);
      assert rounds[i..][1..] == rounds[i + 1..];
      if !RoundSucceeds(r) {
        log := RefreshLog(log.delays + [wait], log.records, true);
        return;
      }
      log := RefreshLog(log.delays + [wait], log.records + [RecordOf(base, r)], false);
      lifetime := r.expiresIn.value;
      i := i + 1;
    }
  }

  /** Every record written keeps the base token the refresher was started with. */
  lemma {:induction false} RecordsKeepBase(base: string, expiresIn: nat, rounds: seq<RefreshRound>)
    ensures forall r :: r in Refreshes(base, expiresIn, rounds).records ==> r.baseAccessToken == base
    decreases |rounds|
  {
    if rounds != [] && RoundSucceeds(rounds[0]) {
      var next := rounds[0].expiresIn.value;
      var rest := rounds[1..];
      RecordsKeepBase(base, next, rest);
      var tail := Refreshes(base, next, rest).records;
      var records := Refreshes(base, expiresIn, rounds).records;
      assert records == [RecordOf(base, rounds[0])] + tail;
      assert forall r :: r in records ==> r == records[0] || r in tail;
    }
  }

  /**
   * One wait per round attempted, and a record after every wait except a
   * final one that panicked; the refresher runs on exactly while every
   * round succeeds.
   */
  lemma {:induction false} LogShape(base: string, expiresIn: nat, rounds: seq<RefreshRound>)
    ensures var log := Refreshes(base, expiresIn, rounds);
      |log.delays| == |log.records| + (if log.panicked then 1 else 0)
      && |log.delays| <= |rounds|
      && (rounds != [] ==> |log.delays| >= 1)
      && (!log.panicked <==> forall i :: 0 <= i < |rounds| ==> RoundSucceeds(rounds[i]))
    decreases |rounds|
  {
    if rounds != [] && RoundSucceeds(rounds[0]) {
      var rest := rounds[1..];
      LogShape(base, rounds[0].expiresIn.value, rest);
      if forall i :: 0 <= i < |rest| ==> RoundSucceeds(rest[i]) {
        forall i | 0 <= i < |rounds| ensures RoundSucceeds(rounds[i]) {
          if i > 0 {
            assert rounds[i] == rest[i - 1];
          }
        }
      }
      if forall i :: 0 <= i < |rounds| ==> RoundSucceeds(rounds[i]) {
        forall i | 0 <= i < |rest| ensures RoundSucceeds(rest[i]) {
          assert rest[i] == rounds[i + 1];
        }
      }
    }
  }

  /**
   * The first wait is set by the starting token's lifetime, and each later
   * one by the lifetime of the token the round before refreshed.
   */
  lemma {:induction false} DelaysFollowLifetimes(base: string, expiresIn: nat, rounds: seq<RefreshRound>)
    ensures Refreshes(base, expiresIn, rounds).delays != [] ==>
      Refreshes(base, expiresIn, rounds).delays[0] == RefreshDelay(expiresIn)
    ensures forall j :: 0 <= j < |Refreshes(base, expiresIn, rounds).delays| - 1 ==>
      j < |rounds| && RoundSucceeds(rounds[j])
      && Refreshes(base, expiresIn, rounds).delays[j + 1] == RefreshDelay(rounds[j].expiresIn.value)
    decreases |rounds|
  {
    if rounds != [] && RoundSucceeds(rounds[0]) {
      var rest := rounds[1..];
      var next := rounds[0].expiresIn.value;
      DelaysFollowLifetimes(base, next, rest);
      LogShape(base, next, rest);
      var delays := Refreshes(base, expiresIn, rounds).delays;
      var tail := Refreshes(base, next, rest).delays;
      assert delays == [RefreshDelay(expiresIn)] + tail;
      forall j | 0 <= j < |delays| - 1
        ensures j < |rounds| && RoundSucceeds(rounds[j]) && delays[j + 1] == RefreshDelay(rounds[j].expiresIn.value)
      {
        assert delays[j + 1] == tail[j];
        if j == 0 {
          assert tail[0] == RefreshDelay(next);
        } else {
          assert rounds[j] == rest[j - 1];
        }
      }
    }
  }

  /**
   * The round trip: after a refresher started from a load of the cache has
   * written a record, loading again with the same configuration gives that
   * record's tokens, provided the written text decodes back to the record.
   */
  lemma RefreshedTokensReload(file: CacheFile, config: TwitchConfig, decode: CacheDecoder,
                              expiresIn: nat, rounds: seq<RefreshRound>, written: string)
    requires GetTokenFromCache(file, config, decode).Loaded?
    requires var records := Refreshes(GetTokenFromCache(file, config, decode).tokens.original, expiresIn, rounds).records;
      records != [] && decode(written) == Some(records[|records| - 1])
    requires !AllWhiteSpace(written)
    ensures var records := Refreshes(GetTokenFromCache(file, config, decode).tokens.original, expiresIn, rounds).records;
      var last := records[|records| - 1];
      GetTokenFromCache(Present(written), config, decode)
        == Loaded(Tokens(config.accessToken, last.currentAccessToken, last.currentRefreshToken))
  {
    var base := GetTokenFromCache(file, config, decode).tokens.original;
    RecordsKeepBase(base, expiresIn, rounds);
    TrimEmptyIffBlank(written);
  }
}
