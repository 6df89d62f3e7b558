/**
 * The state the services share: the relational store and the cache. Each
 * service call is a transition from one `App` to the next together with the
 * reply or the error it raised.
 */
module AppState {
  import opened Outcome
  import Tables
  import RedisCache

  datatype App = App(db: Tables.Db, cache: RedisCache.Cache)

  /** The state after a call and what the call returned or raised. */
  datatype Step<+T> = Step(app: App, out: Result<T>)
}
