/** The result cache of src/cache.ts: a store owned by the factory's closure,
    read by `get` and written by `put`, with a debug flag that turns a second
    `put` of the same key into an error. */
module Cache {
  import opened Wrappers

  /** What the cache holds for one stub: `false` (the function binds no
      names) or the list of parameter names. */
  datatype Value = NoParams | Names(names: seq<string>)

  /** `CacheDebugError`: in debug mode, the key was already present. */
  datatype CacheError = KeyAlreadyPresent

  /** One cache instance: the object the factory `(debug = false) => { get, put }`
      closes over. */
  class ResultCache {
    const debug: bool
    var store: map<string, Value>

    /** The factory: every call starts from its own empty store. */
    constructor (debug: bool)
      ensures this.debug == debug
      ensures store == map[]
      ensures forall key :: Get(key) == None
    {
      this.debug := debug;
      store := map[];
    }

    /** get: the stored value, or None (JavaScript's `undefined`) on a miss;
        a stored `false` is a hit, not a miss. */
    function Get(key: string): (r: Option<Value>)
      reads this
      ensures r == None <==> key !in store
      ensures r != None ==> r == Some(store[key])
    {
      if key in store then Some(store[key]) else None
    }

    /** put: stores v under key, overwriting any earlier value, except that in
        debug mode a key already present (even one holding `false`) is refused
        and the store is left as it was. */
    method Put(key: string, v: Value) returns (r: Result<(), CacheError>)
      modifies this
      ensures r.Err? <==> debug && old(Get(key)) != None
      ensures r.Err? ==> store == old(store)
      ensures r.Ok? ==> Get(key) == Some(v)
      ensures forall k :: k != key ==> Get(k) == old(Get(k))
      ensures r.Ok? ==> store == old(store)[key := v]
    {
      if debug && key in store {
        return Err(KeyAlreadyPresent);
      }
      store := store[key := v];
      r := Ok(());
    }
  }

  /** What a client of one cache can rely on from the contracts alone: the
      round trip, a key never put missing, the overwrite without debug, and
      with debug the refusal that keeps the stored `false`. The contract
      below fixes only the outputs, which constants could also meet; what
      it shows is that the body, which only calls the constructor, Put and
      Get, verifies from their contracts. */
  method CacheRoundTrip(k: string, other: string, v1: Value, v2: Value)
    returns (overwritten: Option<Value>, untouched: Option<Value>, refused: Result<(), CacheError>, kept: Option<Value>)
    requires k != other
    ensures overwritten == Some(v2) && untouched == None
    ensures refused.Err? && kept == Some(NoParams)
  {
    var c := new ResultCache(false);
    var r := c.Put(k, v1);
    assert c.Get(k) == Some(v1);
    r := c.Put(k, v2);
    overwritten, untouched := c.Get(k), c.Get(other);

    var d := new ResultCache(true);
    r := d.Put(k, NoParams);
    refused := d.Put(k, v2);
    kept := d.Get(k);
  }
}
