/** Route classification of an upgraded connection by its request path
    (relay/server.js:86-98). The `name` query parameter, which the source
    reads with the URL parser, arrives here already extracted. */
module Routing {
  import opened Wire
  import Ascii
  import Codes

  /** What the `connection` handler does with a new socket. */
  datatype Route = HostRoute(hostName: string) | JoinRoute(code: Code) | Rejected

  /** The host name used when the `name` parameter is missing or empty. */
  const DefaultHostName: string := "Player"

  const HostPath: string := "/host"
  const HostQueryPrefix: string := "/host?"
  const JoinPrefix: string := "/join/"

  /** `String.prototype.startsWith`. */
  predicate StartsWith(s: string, p: string) {
    |p| <= |s| && s[..|p|] == p
  }

  /** `searchParams.get("name") || "Player"`: a missing or empty name falls back. */
  function HostNameOf(name: Option<string>): (n: string)
    ensures n != ""
    ensures name.Some? && name.value != "" ==> n == name.value
    ensures name.None? || name.value == "" ==> n == DefaultHostName
  {
    if name.Some? && name.value != "" then name.value else DefaultHostName
  }

  predicate IsHostPath(path: string) {
    path == HostPath || StartsWith(path, HostQueryPrefix)
  }

  /** The route of a request path: `/host` or `/host?…` hosts, `/join/<x>`
      joins the upper-cased `<x>`, anything else is closed. */
  function Classify(path: string, name: Option<string>): (r: Route)
    ensures r.HostRoute? <==> IsHostPath(path)
    ensures r.JoinRoute? <==> !IsHostPath(path) && StartsWith(path, JoinPrefix)
    ensures r.HostRoute? ==> r.hostName == HostNameOf(name)
    ensures r.JoinRoute? ==> Ascii.HasNoLower(r.code) && |r.code| == |path| - |JoinPrefix|
  {
    if IsHostPath(path) then HostRoute(HostNameOf(name))
    else if StartsWith(path, JoinPrefix) then JoinRoute(Ascii.Upper(path[|JoinPrefix|..]))
    else Rejected
  }

  /** Every `/join/` path joins its suffix, upper-cased: no join path is
      mistaken for a host path. */
  lemma {:induction false} JoinPathRoute(x: string, name: Option<string>)
    ensures Classify(JoinPrefix + x, name) == JoinRoute(Ascii.Upper(x))
  {
    var path := JoinPrefix + x;
    assert path[1] == 'j';
    assert path[|JoinPrefix|..] == x;
  }

  /** A code typed in any letter case reaches the room that was created
      under it. */
  lemma {:induction false} JoinAnyCase(c: Code, typed: string, name: Option<string>)
    requires Ascii.Upper(typed) == c
    ensures Classify(JoinPrefix + typed, name) == JoinRoute(c)
  {
    JoinPathRoute(typed, name);
  }

  /** The lower-case spelling of a drawn code joins that code. */
  lemma {:induction false} JoinLowerCase(c: Code, name: Option<string>)
    requires Codes.IsCode(c)
    ensures Classify(JoinPrefix + Ascii.Lower(c), name) == JoinRoute(c)
  {
    Ascii.UpperOfLower(c);
    Ascii.UpperOfNoLower(c);
    JoinAnyCase(c, Ascii.Lower(c), name);
  }

  /** Every `/host?…` path hosts, whatever its query string says. */
  lemma {:induction false} HostQueryRoute(query: string, name: Option<string>)
    ensures Classify(HostQueryPrefix + query, name) == HostRoute(HostNameOf(name))
  {
    assert (HostQueryPrefix + query)[..|HostQueryPrefix|] == HostQueryPrefix;
  }
}
