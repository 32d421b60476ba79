/** The two helpers of src/helpers.ts: `wrap`, which pairs parameter names
    with caller-supplied values, and `checkCache`, which turns a cache lookup
    into a result, a wrapped result, or a miss. */
module Helpers {
  import opened Wrappers
  import opened Cache

  /** `RangeError`: the number of values does not match the number of names. */
  datatype WrapError = ArityMismatch

  /** The wrapper object that `wrap` builds: each name mapped to its value,
      filled in index order. */
  function Zip<V>(values: seq<V>, names: seq<string>): (wrapper: map<string, V>)
    requires |values| == |names|
  {
    if |names| == 0 then map[]
    else
      var n := |names| - 1;
      Zip(values[..n], names[..n])[names[n] := values[n]]
  }

  /** The wrapper's keys are exactly the parameter names. */
  lemma {:induction false} ZipKeys<V>(values: seq<V>, names: seq<string>)
    requires |values| == |names|
    ensures Zip(values, names).Keys == set i | 0 <= i < |names| :: names[i]
  {
    if |names| > 0 {
      var n := |names| - 1;
      ZipKeys(values[..n], names[..n]);
      assert forall i :: 0 <= i < n ==> names[..n][i] == names[i];
      assert (set i | 0 <= i < |names| :: names[i]) == (set i | 0 <= i < n :: names[..n][i]) + {names[n]};
    }
  }

  /** Under each name sits the value at that name's last index: a repeated
      name keeps the later value. */
  lemma {:induction false} ZipAt<V>(values: seq<V>, names: seq<string>, i: nat)
    requires |values| == |names| && i < |names|
    requires forall j :: i < j < |names| ==> names[j] != names[i]
    ensures names[i] in Zip(values, names) && Zip(values, names)[names[i]] == values[i]
  {
    var n := |names| - 1;
    if i < n {
      assert names[..n][i] == names[i] && values[..n][i] == values[i];
      ZipAt(values[..n], names[..n], i);
    }
  }

  /** wrap as a value: the arity check first, then the zip. */
  function Wrapping<V>(values: seq<V>, names: seq<string>): (r: Result<map<string, V>, WrapError>)
    ensures r.Err? <==> |values| != |names|
    ensures r.Ok? ==> r.value == Zip(values, names)
  {
    if |values| != |names| then Err(ArityMismatch) else Ok(Zip(values, names))
  }

  /** wrap: throws on an arity mismatch, otherwise fills the wrapper in
      place, one `wrapper[paramNames[index]] = value` per element of wrapWith. */
  method Wrap<V>(wrapWith: seq<V>, paramNames: seq<string>) returns (r: Result<map<string, V>, WrapError>)
    ensures r == Wrapping(wrapWith, paramNames)
  {
    if |wrapWith| != |paramNames| {
      return Err(ArityMismatch);
    }
    var wrapper: map<string, V> := map[];
    var index := 0;
    while index < |wrapWith|
      invariant index <= |wrapWith|
      invariant wrapper == Zip(wrapWith[..index], paramNames[..index])
    {
      assert wrapWith[..index + 1][..index] == wrapWith[..index];
      assert paramNames[..index + 1][..index] == paramNames[..index];
      wrapper := wrapper[paramNames[index] := wrapWith[index]];
      index := index + 1;
    }
    assert wrapWith[..index] == wrapWith && paramNames[..index] == paramNames;
    r := Ok(wrapper);
  }

  /** What checkCache hands back when it does not fail: nothing found
      (`undefined`), the stored value as it is, or the stored names wrapped
      with the caller's values. */
  datatype Checked<V> = Miss | Hit(value: Value) | WrappedHit(wrapper: map<string, V>)

  /** JavaScript truthiness of a lookup result: every array is truthy, the
      empty one included; `false` and `undefined` are not. */
  predicate Truthy(hit: Option<Value>) {
    hit.Some? && hit.value.Names?
  }

  /** checkCache: with the cache off, a miss without a lookup; otherwise the
      lookup of key decides: a name list is returned as it is, or wrapped
      when values were supplied (failing like `wrap` on a mismatch); a stored
      `false` is returned whatever the values; a miss is a miss. */
  function CheckCache<V>(cache: bool, key: string, get: string -> Option<Value>, wrapWith: seq<V>)
    : (r: Result<Checked<V>, WrapError>)
    ensures r == Ok(Miss) <==> !cache || get(key) == None
    ensures r.Err? <==> cache && Truthy(get(key)) && |wrapWith| > 0 && |wrapWith| != |get(key).value.names|
    ensures r.Ok? && r.value.Hit? ==> cache && get(key) == Some(r.value.value)
    ensures r.Ok? && r.value.Hit? && r.value.value.Names? ==> |wrapWith| == 0
    ensures cache && Truthy(get(key)) && |wrapWith| == 0 ==> r == Ok(Hit(get(key).value))
    ensures r.Ok? && r.value.WrappedHit? ==>
              && cache && |wrapWith| > 0 && Truthy(get(key)) && |wrapWith| == |get(key).value.names|
              && r.value.wrapper == Zip(wrapWith, get(key).value.names)
    ensures cache && get(key) == Some(NoParams) ==> r == Ok(Hit(NoParams))
  {
    if cache then
      var cacheHit := get(key);
      if Truthy(cacheHit) then
        if |wrapWith| > 0 then
          match Wrapping(wrapWith, cacheHit.value.names)
          case Ok(wrapper) => Ok(WrappedHit(wrapper))
          case Err(e) => Err(e)
        else Ok(Hit(cacheHit.value))
      else if cacheHit == Some(NoParams) then Ok(Hit(NoParams))
      else Ok(Miss)
    else Ok(Miss)
  }
}
