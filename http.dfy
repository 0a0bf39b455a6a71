/**
 * The parts of the Fetch API's `Headers` and `Request` the sources use. A
 * `Headers` object is a map whose keys are header names lowercased (ASCII
 * only, as the Fetch standard's byte-lowercase does); `get` and `set` lowercase
 * the name they are given before looking it up.
 */
module Http {
  import opened Wrappers

  /** ASCII lower-casing of one character: `A`-`Z` move up by 32 onto `a`-`z`. */
  function LowerChar(c: char): (l: char)
    ensures !('A' <= l <= 'Z')
    ensures 'A' <= c <= 'Z' ==> l as int == c as int + 32 && 'a' <= l <= 'z'
    ensures !('A' <= c <= 'Z') ==> l == c
  {
    if 'A' <= c <= 'Z' then (c as int + 32) as char else c
  }

  predicate IsLowerName(name: string) {
    forall i :: 0 <= i < |name| ==> !('A' <= name[i] <= 'Z')
  }

  /** A header name as `Headers` stores it. */
  function Lower(name: string): (r: string)
    ensures |r| == |name| && IsLowerName(r)
    ensures forall i :: 0 <= i < |name| ==> r[i] == LowerChar(name[i])
    ensures IsLowerName(name) ==> r == name
  {
    seq(|name|, i requires 0 <= i < |name| => LowerChar(name[i]))
  }

  type Headers = m: map<string, string> | forall k :: k in m ==> IsLowerName(k)
    witness map[]

  /** `headers.get(name)`; `None` stands for `null`. */
  function Get(h: Headers, name: string): Option<string> {
    if Lower(name) in h then Some(h[Lower(name)]) else None
  }

  /** `headers.set(name, value)`. */
  function Set(h: Headers, name: string, value: string): (r: Headers)
    ensures Get(r, name) == Some(value)
    ensures forall n :: Lower(n) != Lower(name) ==> Get(r, n) == Get(h, n)
    ensures r.Keys == h.Keys + {Lower(name)}
  {
    h[Lower(name) := value]
  }

  /** An incoming request as the handler sees it: its URL and its headers. */
  datatype Request = Request(url: string, headers: Headers)
}
