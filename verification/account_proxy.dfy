/**
 The account proxy that gives anonymous visitors the timezone of their IP
 address (src/AnonymousTimezoneAccountProxy.php).

 The per-request static cache maps a client IP to a timezone or NULL. The
 proxy's effects on the outside world are recorded as an event log: the page
 cache kill switch, the read of the module's settings, the query to the
 GeoIP2 reader and the call that sets PHP's default timezone. The reader
 itself is not modelled; for the configured database it is an outcome per IP.
 */
module AccountProxy {
  import opened Php

  /** What `new Reader($geodb)` followed by `->city($ip)` does for one IP. */
  datatype ReaderOutcome =
    | Found(timeZone: Option<string>)  // a city record; `location->timeZone` may be NULL
    | GeoIpFailure                     // a GeoIp2Exception, e.g. the address is not in the database
    | InvalidDatabase                  // any other exception; it escapes the proxy

  /** The parts of the world the lookup reads: the `geodb` setting, the file system and the reader. */
  datatype Env = Env(geodb: Option<string>, existingFiles: set<string>, lookup: string -> ReaderOutcome)

  datatype Event =
    | KillSwitchTriggered
    | SettingsRead
    | ReaderQueried(path: string, ip: string)
    | DefaultTimezoneSet(tz: string)

  /** The static cache (IP to timezone or NULL) and the effects performed so far. */
  datatype State = State(cache: map<string, Option<string>>, log: seq<Event>)

  /** A call either returns a value or lets an exception escape; both leave a state behind. */
  datatype Call<+T> = Returned(value: T, state: State) | Thrown(state: State)

  /** The proxied account: whether it is anonymous and the timezone the parent proxy reports for it. */
  datatype Account = Account(anonymous: bool, timeZone: string)

  /** `isset($cache[$ip])`: the key is present AND its value is not NULL. */
  predicate IsHit(cache: map<string, Option<string>>, ip: string) {
    ip in cache && cache[ip].Some?
  }

  /** The configured path is not PHP-empty and names an existing file. */
  predicate GeoDbUsable(env: Env) {
    env.geodb.Some? && !IsEmptyString(env.geodb.value) && env.geodb.value in env.existingFiles
  }

  /** Every timezone stored in the cache is non-empty, as the proxy only ever stores such values. */
  predicate CacheWellFormed(cache: map<string, Option<string>>) {
    forall ip | ip in cache && cache[ip].Some? :: !IsEmptyString(cache[ip].value)
  }

  /** Two caches agree on every key other than `ip`. */
  predicate SameExcept(a: map<string, Option<string>>, b: map<string, Option<string>>, ip: string) {
    && (forall k | k in a && k != ip :: k in b && b[k] == a[k])
    && (forall k | k in b && k != ip :: k in a)
  }

  /** The number of kill switch triggers in a log. */
  function KillCount(log: seq<Event>): (n: nat)
    ensures n <= |log|
    ensures n == 0 <==> KillSwitchTriggered !in log
  {
    if log == [] then 0
    else KillCount(log[..|log| - 1]) + (if log[|log| - 1] == KillSwitchTriggered then 1 else 0)
  }

  lemma {:induction false} KillCountAppend(a: seq<Event>, b: seq<Event>)
    ensures KillCount(a + b) == KillCount(a) + KillCount(b)
    decreases |b|
  {
    if b == [] {
      assert a + b == a;
    } else {
      var b' := b[..|b| - 1];
      assert (a + b)[..|a + b| - 1] == a + b';
      KillCountAppend(a, b');
    }
  }

  /**
   The effects of a lookup that misses the cache, in order: the kill switch
   first, then the read of the settings, then, only when the configured file
   exists, one query of the reader for this IP and that file.
   */
  function MissEvents(ip: string, env: Env): (events: seq<Event>)
    ensures |events| >= 2 && events[0] == KillSwitchTriggered && events[1] == SettingsRead
    // Nothing else happens: at most the one reader query follows.
    ensures |events| == if GeoDbUsable(env) then 3 else 2
    ensures KillSwitchTriggered !in events[1..]
    ensures forall i | 0 <= i < |events| && events[i].ReaderQueried? ::
              env.geodb.Some? && events[i] == ReaderQueried(env.geodb.value, ip)
    ensures (exists i | 0 <= i < |events| :: events[i].ReaderQueried?) <==> GeoDbUsable(env)
  {
    var events := [KillSwitchTriggered, SettingsRead]
      + (if GeoDbUsable(env) then [ReaderQueried(env.geodb.value, ip)] else []);
    assert GeoDbUsable(env) ==> events[2].ReaderQueried?;
    events
  }

  /** What the lookup yields for `ip` when the cache is bypassed. */
  datatype Resolution = Zone(tz: string) | Unknown | Fails

  /**
   Reference meaning of one uncached lookup: a non-empty timezone from the
   reader, or Unknown when the setting is empty, the file is missing, the
   reader throws a GeoIp2Exception or the record carries no timezone; Fails
   when the reader throws anything else.
   */
  function Resolve(env: Env, ip: string): (res: Resolution)
    // A timezone exactly when a usable database gives a record with a non-empty timezone, and then that one.
    ensures res.Zone? <==> GeoDbUsable(env) && env.lookup(ip).Found? && !IsEmpty(env.lookup(ip).timeZone)
    ensures res.Zone? ==> env.lookup(ip).timeZone == Some(res.tz) && !IsEmptyString(res.tz)
    // A failure exactly when a usable database raises a non-GeoIP2 exception.
    ensures res.Fails? <==> GeoDbUsable(env) && env.lookup(ip) == InvalidDatabase
  {
    if !GeoDbUsable(env) then Unknown
    else match env.lookup(ip)
      case InvalidDatabase => Fails
      case GeoIpFailure => Unknown
      case Found(tz) => if IsEmpty(tz) then Unknown else Zone(tz.value)
  }

  /** The answer a returning lookup reports for a resolution that did not fail. */
  function AsNullable(res: Resolution): Option<string> {
    if res.Zone? then Some(res.tz) else None
  }

  /** The final `empty($cache[$ip])` check of getGeoTimeZone(): an entry that is absent or PHP-empty becomes NULL. */
  function SettleEntry(cache: map<string, Option<string>>, ip: string): (c: map<string, Option<string>>)
    ensures ip in c && SameExcept(cache, c, ip)
    ensures ip in cache && !IsEmpty(cache[ip]) ==> c == cache
    ensures !(ip in cache && !IsEmpty(cache[ip])) ==> c[ip] == None
  {
    if ip !in cache || IsEmpty(cache[ip]) then cache[ip := None] else cache
  }

  /**
   `getGeoTimeZone()` for the client IP `ip`: a cache hit returns the cached
   timezone; otherwise the kill switch is triggered, the `geodb` setting is
   read, and, when it names an existing file, the reader is queried.
   */
  function GeoTimeZone(ip: string, env: Env, s: State): (r: Call<Option<string>>)
    // A hit returns the cached value and performs nothing.
    ensures IsHit(s.cache, ip) ==> r == Returned(s.cache[ip], s)
    // A miss fails exactly when the reader fails with a non-GeoIP2 exception ...
    ensures !IsHit(s.cache, ip) ==> (r.Thrown? <==> Resolve(env, ip) == Fails)
    // ... and otherwise returns the uncached resolution, NULL standing for Unknown.
    ensures !IsHit(s.cache, ip) && r.Returned? ==> r.value == AsNullable(Resolve(env, ip))
    // A returned value is what the cache now holds for the IP.
    ensures r.Returned? ==> ip in r.state.cache && r.state.cache[ip] == r.value
    // An escaping exception leaves the cache exactly as it was.
    ensures r.Thrown? ==> r.state.cache == s.cache
    // No other IP's entry changes.
    ensures SameExcept(s.cache, r.state.cache, ip)
    // A miss performs the miss protocol: kill switch, settings read, reader query.
    ensures !IsHit(s.cache, ip) ==> r.state.log == s.log + MissEvents(ip, env)
  {
    if IsHit(s.cache, ip) then Returned(s.cache[ip], s)
    else
      var log := s.log + [KillSwitchTriggered, SettingsRead];
      if !GeoDbUsable(env) then
        var cache := SettleEntry(s.cache, ip);
        Returned(cache[ip], State(cache, log))
      else
        var log' := log + [ReaderQueried(env.geodb.value, ip)];
        match env.lookup(ip)
        case InvalidDatabase => Thrown(State(s.cache, log'))
        case GeoIpFailure =>
          var cache := SettleEntry(s.cache, ip);
          Returned(cache[ip], State(cache, log'))
        case Found(tz) =>
          var stored := if !IsEmpty(tz) then s.cache[ip := tz] else s.cache;
          var cache := SettleEntry(stored, ip);
          Returned(cache[ip], State(cache, log'))
  }


  /**
   Each lookup that misses the cache triggers the kill switch exactly once;
   a hit triggers it not at all.
   */
  lemma KillSwitchOncePerMiss(ip: string, env: Env, s: State)
    ensures var r := GeoTimeZone(ip, env, s);
            KillCount(r.state.log) == KillCount(s.log) + (if IsHit(s.cache, ip) then 0 else 1)
  {
    if !IsHit(s.cache, ip) {
      var events := MissEvents(ip, env);
      assert events == [events[0]] + events[1..];
      KillCountAppend([events[0]], events[1..]);
      assert KillCount([events[0]]) == 1 by {
        assert [events[0]][..0] == [];
      }
      KillCountAppend(s.log, events);
    }
  }

  /** The lookup never stores an empty timezone, so a well-formed cache stays well-formed. */
  lemma CacheStaysWellFormed(ip: string, env: Env, s: State)
    requires CacheWellFormed(s.cache)
    ensures CacheWellFormed(GeoTimeZone(ip, env, s).state.cache)
    ensures var r := GeoTimeZone(ip, env, s);
            r.Returned? && r.value.Some? ==> !IsEmptyString(r.value.value)
  {
  }

  /** If the setting is empty or the file is missing, the lookup returns NULL and nothing escapes. */
  lemma MissingDatabaseGivesNull(ip: string, env: Env, s: State)
    requires !GeoDbUsable(env) && !IsHit(s.cache, ip)
    ensures var r := GeoTimeZone(ip, env, s);
            r.Returned? && r.value == None && r.state.cache == s.cache[ip := None]
  {
  }

  /**
   Once a timezone is found it is served from the cache: a second lookup for
   the same IP, whatever the environment, returns it again and triggers nothing.
   */
  lemma FoundZoneIsMemoised(ip: string, env: Env, env': Env, s: State)
    requires GeoTimeZone(ip, env, s).Returned? && GeoTimeZone(ip, env, s).value.Some?
    ensures var s1 := GeoTimeZone(ip, env, s).state;
            GeoTimeZone(ip, env', s1) == Returned(GeoTimeZone(ip, env, s).value, s1)
  {
  }

  /**
   A NULL entry is not a hit (`isset`): after a lookup that returned NULL, the
   next lookup for the same IP triggers the kill switch and queries again.
   */
  lemma NullEntryIsRetried(ip: string, env: Env, s: State)
    requires GeoTimeZone(ip, env, s) == Returned(None, GeoTimeZone(ip, env, s).state)
    ensures var s1 := GeoTimeZone(ip, env, s).state;
            ip in s1.cache && s1.cache[ip] == None
            && !IsHit(s1.cache, ip)
            && KillCount(GeoTimeZone(ip, env, s1).state.log) == KillCount(s1.log) + 1
  {
    var s1 := GeoTimeZone(ip, env, s).state;
    KillSwitchOncePerMiss(ip, env, s1);
  }

  /** The same visitor looked up `n` times in a row, as successive getGeoTimeZone() calls do. */
  function Repeat(n: nat, ip: string, env: Env, s: State): (r: Call<Option<string>>)
    ensures s.log <= r.state.log
  {
    if n == 0 then Returned(None, s)
    else
      match Repeat(n - 1, ip, env, s)
      case Thrown(s') => Thrown(s')
      case Returned(_, s') => GeoTimeZone(ip, env, s')
  }

  /**
   For a visitor whose timezone cannot be resolved, every one of `n` lookups
   triggers the kill switch again (and, when the database is usable, queries
   the reader again, as MissEvents says).
   */
  lemma {:induction false} UnknownVisitorTriggersEveryTime(n: nat, ip: string, env: Env, s: State)
    requires Resolve(env, ip) == Unknown && !IsHit(s.cache, ip)
    ensures var r := Repeat(n, ip, env, s);
            r.Returned? && KillCount(r.state.log) == KillCount(s.log) + n
            && (n > 0 ==> r.value == None && !IsHit(r.state.cache, ip))
  {
    if n > 0 {
      UnknownVisitorTriggersEveryTime(n - 1, ip, env, s);
      var s' := Repeat(n - 1, ip, env, s).state;
      assert !IsHit(s'.cache, ip);
      KillSwitchOncePerMiss(ip, env, s');
    }
  }

  /**
   For a visitor whose timezone is found, `n >= 1` lookups trigger the kill
   switch once in total, and all of them return the timezone.
   */
  lemma {:induction false} KnownVisitorTriggersOnce(n: nat, ip: string, env: Env, s: State, tz: string)
    requires Resolve(env, ip) == Zone(tz) && !IsHit(s.cache, ip) && n >= 1
    ensures var r := Repeat(n, ip, env, s);
            r == Returned(Some(tz), r.state) && KillCount(r.state.log) == KillCount(s.log) + 1
  {
    if n == 1 {
      assert Repeat(0, ip, env, s) == Returned(None, s);
      KillSwitchOncePerMiss(ip, env, s);
    } else {
      KnownVisitorTriggersOnce(n - 1, ip, env, s, tz);
      var s' := Repeat(n - 1, ip, env, s).state;
      assert IsHit(s'.cache, ip);
    }
  }

  /**
   `getTimeZone()`: an anonymous visitor gets the geo timezone when it is not
   empty and the parent's timezone otherwise; any other user gets the parent's
   timezone without a lookup.
   */
  function GetTimeZone(account: Account, ip: string, env: Env, s: State): (r: Call<string>)
    ensures !account.anonymous ==> r == Returned(account.timeZone, s)
    ensures account.anonymous ==>
              match GeoTimeZone(ip, env, s)
              case Thrown(s') => r == Thrown(s')
              case Returned(tz, s') =>
                && r.Returned? && r.state == s'
                && (!IsEmpty(tz) ==> r.value == tz.value)
                && (IsEmpty(tz) ==> r.value == account.timeZone)
  {
    if account.anonymous then
      match GeoTimeZone(ip, env, s)
      case Thrown(s') => Thrown(s')
      case Returned(tz, s') => if !IsEmpty(tz) then Returned(tz.value, s') else Returned(account.timeZone, s')
    else Returned(account.timeZone, s)
  }

  /**
   For an anonymous visitor whose IP is not cached, getTimeZone() returns the
   resolved timezone if there is one and the parent's timezone otherwise.
   */
  lemma TimeZoneOfUncachedVisitor(account: Account, ip: string, env: Env, s: State)
    requires account.anonymous && !IsHit(s.cache, ip) && Resolve(env, ip) != Fails
    ensures var r := GetTimeZone(account, ip, env, s);
            r.Returned?
            && (Resolve(env, ip).Zone? ==> r.value == Resolve(env, ip).tz)
            && (Resolve(env, ip).Unknown? ==> r.value == account.timeZone)
  {
  }

  /**
   For an anonymous visitor whose IP holds a timezone in the cache,
   getTimeZone() returns that timezone and performs nothing.
   */
  lemma TimeZoneOfCachedVisitor(account: Account, ip: string, env: Env, s: State)
    requires account.anonymous && IsHit(s.cache, ip) && CacheWellFormed(s.cache)
    ensures GetTimeZone(account, ip, env, s) == Returned(s.cache[ip].value, s)
  {
  }

  /**
   `getAccount()`: the account itself is returned unchanged; for an anonymous
   visitor whose geo timezone is not empty, PHP's default timezone is set to it.
   */
  function GetAccount(account: Account, ip: string, env: Env, s: State): (r: Call<Account>)
    ensures r.Returned? ==> r.value == account
    ensures !account.anonymous ==> r == Returned(account, s)
    ensures account.anonymous ==>
              match GeoTimeZone(ip, env, s)
              case Thrown(s') => r == Thrown(s')
              case Returned(tz, s') =>
                && r.Returned?
                && r.state.cache == s'.cache
                && (IsEmpty(tz) ==> r.state.log == s'.log)
                && (!IsEmpty(tz) ==> r.state.log == s'.log + [DefaultTimezoneSet(tz.value)])
  {
    if account.anonymous then
      match GeoTimeZone(ip, env, s)
      case Thrown(s') => Thrown(s')
      case Returned(tz, s') =>
        if !IsEmpty(tz) then Returned(account, State(s'.cache, s'.log + [DefaultTimezoneSet(tz.value)]))
        else Returned(account, s')
    else Returned(account, s)
  }
}
