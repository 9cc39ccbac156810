/**
 * URLs as the source uses them: a parsed URL is an origin, a path and its
 * decoded query parameters in order. WHATWG parsing, `decodeURIComponent`
 * and serialisation belong to the JavaScript runtime; the model receives
 * them as a `UrlCodec`. The `searchParams` operations `get`, `delete` and
 * `set` are defined here as the URL standard defines them.
 */
module Urls {
  import opened Wrappers
  import opened Text

  datatype Param = Param(key: string, value: string)

  datatype Url = Url(origin: string, pathname: string, params: seq<Param>)

  /**
   * The runtime's URL functions: `new URL(s)` (None when it throws),
   * `decodeURIComponent(s)` (None when it throws) and `url.toString()`.
   */
  datatype UrlCodec = UrlCodec(
    parse: string -> Option<Url>,
    decodeComponent: string -> Option<string>,
    format: Url -> string)

  /** The values stored under `key`, in order. */
  function ValuesOf(ps: seq<Param>, key: string): (vs: seq<string>)
    ensures |vs| <= |ps|
  {
    if ps == [] then []
    else if ps[0].key == key then [ps[0].value] + ValuesOf(ps[1..], key)
    else ValuesOf(ps[1..], key)
  }

  predicate HasKey(ps: seq<Param>, key: string) {
    exists i :: 0 <= i < |ps| && ps[i].key == key
  }

  /** `searchParams.get(key)`: the first value stored under `key`, or None (`null`). */
  function Get(ps: seq<Param>, key: string): (r: Option<string>)
    ensures r.None? <==> ValuesOf(ps, key) == []
    ensures r.Some? ==> r.value == ValuesOf(ps, key)[0]
    ensures r.None? <==> !HasKey(ps, key)
  {
    if ps == [] then None
    else if ps[0].key == key then Some(ps[0].value)
    else
      var r := Get(ps[1..], key);
      assert HasKey(ps[1..], key) ==> HasKey(ps, key) by {
        if HasKey(ps[1..], key) {
          var i :| 0 <= i < |ps[1..]| && ps[1..][i].key == key;
          assert ps[i + 1].key == key;
        }
      }
      r
  }

  /** `searchParams.delete(key)`: every pair stored under `key` is removed. */
  function Delete(ps: seq<Param>, key: string): (r: seq<Param>)
    ensures ValuesOf(r, key) == []
    ensures forall k :: k != key ==> ValuesOf(r, k) == ValuesOf(ps, k)
    ensures forall p :: p in r <==> p in ps && p.key != key
  {
    if ps == [] then []
    else if ps[0].key == key then Delete(ps[1..], key)
    else [ps[0]] + Delete(ps[1..], key)
  }

  /**
   * `searchParams.set(key, value)`: the first pair stored under `key` takes
   * the new value and the other pairs under `key` are removed; with no such
   * pair, the new pair is appended.
   */
  function SetParam(ps: seq<Param>, key: string, value: string): (r: seq<Param>)
    ensures ValuesOf(r, key) == [value]
    ensures forall k :: k != key ==> ValuesOf(r, k) == ValuesOf(ps, k)
  {
    if ps == [] then [Param(key, value)]
    else if ps[0].key == key then [Param(key, value)] + Delete(ps[1..], key)
    else [ps[0]] + SetParam(ps[1..], key, value)
  }
}
