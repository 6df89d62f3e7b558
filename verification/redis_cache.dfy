/**
 * The Redis wrapper: a client handle that is either absent or connected, in
 * front of the server's key/value store. Values are dicts or lists; each
 * entry remembers the expiry (in seconds) it was written with.
 */
module RedisCache {
  import opened Optional
  import opened Outcome
  import opened JsonData
  import Text

  datatype Conn = Uninitialised | Connected(host: string, port: int)

  datatype Entry = Entry(value: Payload, expire: int)

  /**
   * The wrapper's client handle and the contents of the server it talks to.
   * Dropping the handle does not empty the server.
   */
  datatype Cache = Cache(conn: Conn, store: map<string, Entry>)

  /** The expiry `set_cache` uses when the caller gives none. */
  const DefaultExpire: int := 600

  const NotInitialised: string := "Redis connection not initialized. Call connect() first"

  /** A wrapper that was never connected, over a server holding `store`. */
  function Fresh(store: map<string, Entry>): Cache {
    Cache(Uninitialised, store)
  }

  /**
   * `connect()`, given the values of the REDIS_HOST and REDIS_PORT
   * environment variables. The port is checked first; a port that `int()`
   * rejects fails too. On failure the wrapper keeps its previous handle.
   */
  function Connect(c: Cache, redisHost: Option<string>, redisPort: Option<string>): (r: Result<Cache>)
    ensures redisPort.None? ==> r == Err(Runtime("Failed to connect to Redis: REDIS_PORT is None"))
    ensures redisPort.Some? && redisHost.None? ==> r == Err(Runtime("Failed to connect to Redis: REDIS_HOST is None"))
    ensures r.Ok? <==> redisPort.Some? && redisHost.Some? && Text.ParseInt(redisPort.value).Some?
    ensures r.Err? ==> r.error.Runtime?
    ensures r.Ok? ==> r.value == Cache(Connected(redisHost.value, Text.ParseInt(redisPort.value).value), c.store)
  {
    if redisPort.None? then Err(Runtime("Failed to connect to Redis: REDIS_PORT is None"))
    else if redisHost.None? then Err(Runtime("Failed to connect to Redis: REDIS_HOST is None"))
    else
      match Text.ParseInt(redisPort.value)
      case None =>
        Err(Runtime("Failed to connect to Redis: invalid literal for int() with base 10: '" + redisPort.value + "'"))
      case Some(port) => Ok(Cache(Connected(redisHost.value, port), c.store))
  }

  /** A port grouped with an underscore, which `int()` accepts, connects to that port. */
  lemma ConnectGroupedPort(c: Cache, host: string)
    ensures Connect(c, Some(host), Some("6_379")) == Ok(Cache(Connected(host, 6379), c.store))
  {
    Text.GroupedPort();
  }

  /** `is_connected()`: raises unless `connect()` has set up a client. */
  function IsConnected(c: Cache): (r: Result<()>)
    ensures r.Ok? <==> c.conn.Connected?
    ensures r.Err? ==> r.error == Runtime(NotInitialised)
  {
    if c.conn.Connected? then Ok(()) else Err(Runtime(NotInitialised))
  }

  /**
   * `set_cache(key, value, expire)`: SETEX of the JSON text. Redis refuses a
   * non-positive expiry.
   */
  function SetCache(c: Cache, key: string, value: Payload, expire: int := DefaultExpire): (r: Result<Cache>)
    ensures c.conn.Uninitialised? ==> r == Err(Runtime(NotInitialised))
    ensures r.Ok? <==> c.conn.Connected? && expire > 0
    ensures r.Ok? ==> r.value.conn == c.conn
    ensures r.Ok? ==> GetCache(r.value, key) == Ok(Some(value)) && r.value.store[key].expire == expire
    ensures r.Ok? ==> forall k :: k != key ==> GetCache(r.value, k) == GetCache(c, k)
  {
    var _ :- IsConnected(c);
    if expire <= 0 then Err(Redis("invalid expire time in 'setex' command"))
    else Ok(c.(store := c.store[key := Entry(value, expire)]))
  }

  /** `get_cache(key)`: the stored value, or `None` when the key is absent. */
  function GetCache(c: Cache, key: string): (r: Result<Option<Payload>>)
    ensures r.Err? <==> c.conn.Uninitialised?
    ensures r.Err? ==> r.error == Runtime(NotInitialised)
    ensures r.Ok? ==> (r.value.Some? <==> key in c.store)
  {
    var _ :- IsConnected(c);
    if key in c.store then Ok(Some(c.store[key].value)) else Ok(None)
  }

  /** `delete_cache(key)`: DEL, which is not an error for an absent key. */
  function DeleteCache(c: Cache, key: string): (r: Result<Cache>)
    ensures r.Err? <==> c.conn.Uninitialised?
    ensures r.Err? ==> r.error == Runtime(NotInitialised)
    ensures r.Ok? ==> r.value.conn == c.conn
    ensures r.Ok? ==> GetCache(r.value, key) == Ok(None)
    ensures r.Ok? ==> forall k :: k != key ==> GetCache(r.value, k) == GetCache(c, k)
  {
    var _ :- IsConnected(c);
    Ok(c.(store := c.store - {key}))
  }

  /** `disconnect()`: drops the client handle if there is one. */
  function Disconnect(c: Cache): (r: Cache)
    ensures r.conn.Uninitialised? && r.store == c.store
  {
    if c.conn.Connected? then c.(conn := Uninitialised) else c
  }

  /** Disconnecting twice is the same as disconnecting once. */
  lemma DisconnectIdempotent(c: Cache)
    ensures Disconnect(Disconnect(c)) == Disconnect(c)
  {
  }

  /** Without a client, every data operation raises the same RuntimeError. */
  lemma UninitialisedRejectsAll(c: Cache, key: string, value: Payload, expire: int)
    requires c.conn.Uninitialised?
    ensures SetCache(c, key, value, expire) == Err(Runtime(NotInitialised))
    ensures GetCache(c, key) == Err(Runtime(NotInitialised))
    ensures DeleteCache(c, key) == Err(Runtime(NotInitialised))
  {
  }

  /** After `disconnect()` the wrapper behaves as if `connect()` was never called. */
  lemma DisconnectedRejectsAll(c: Cache, key: string, value: Payload, expire: int)
    ensures SetCache(Disconnect(c), key, value, expire) == Err(Runtime(NotInitialised))
    ensures GetCache(Disconnect(c), key) == Err(Runtime(NotInitialised))
    ensures DeleteCache(Disconnect(c), key) == Err(Runtime(NotInitialised))
  {
    UninitialisedRejectsAll(Disconnect(c), key, value, expire);
  }

  /** A key that was never written reads as `None`. */
  lemma NeverSetReadsNone(c: Cache, key: string)
    requires c.conn.Connected? && key !in c.store
    ensures GetCache(c, key) == Ok(None)
  {
  }

  /** Connecting and then writing with the default expiry stores the value for 600 seconds. */
  lemma DefaultExpiryIs600(c: Cache, key: string, value: Payload)
    requires c.conn.Connected?
    ensures SetCache(c, key, value).Ok?
    ensures SetCache(c, key, value).value.store[key] == Entry(value, 600)
  {
  }
}
