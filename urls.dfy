/** URLs as the `url` crate exposes them to the program: a scheme, an optional
    host, an optional port, the path as its segments, an optional query and an
    optional fragment.  Resolving a reference against a base (`Url::join`, the
    basic URL parser of section 4.4 of the WHATWG URL Standard) and
    percent-encoding (`urlencoding::encode`) are libraries the model does not
    open up: they are function-typed parameters of the operations that use them. */
module Urls {
  import opened Wrappers
  import Strings

  datatype Host = Domain(name: string) | IpAddress(text: string)

  datatype Url = Url(
    scheme: string,
    host: Option<Host>,
    port: Option<nat>,
    segments: seq<string>,
    query: Option<string>,
    fragment: Option<string>)

  /** `Url::join(base, reference)`; none when the reference does not parse. */
  type Joiner = (Url, string) -> Option<Url>

  /** `urlencoding::encode` */
  type Encoder = string -> string

  /** `url.domain()`: the host when it is a domain name. */
  function DomainOf(u: Url): Option<string>
  {
    match u.host
    case Some(Domain(d)) => Some(d)
    case _ => None
  }

  /** `url.path()`: each segment preceded by `/`. */
  function PathOf(segments: seq<string>): (p: string)
    ensures segments != [] ==> |p| > 0 && p[0] == '/'
  {
    if segments == [] then [] else "/" + segments[0] + PathOf(segments[1..])
  }

  function Path(u: Url): string
  {
    PathOf(u.segments)
  }

  function HostText(h: Host): string
  {
    match h
    case Domain(d) => d
    case IpAddress(t) => t
  }

  /** `url.to_string()` (section 4.5 of the WHATWG URL Standard, without credentials). */
  function Serialize(u: Url): string
  {
    u.scheme + ":"
    + (match u.host
       case Some(h) => "//" + HostText(h) + (match u.port case Some(p) => ":" + Strings.Decimal(p) case None => "")
       case None => "")
    + Path(u)
    + (match u.query case Some(q) => "?" + q case None => "")
    + (match u.fragment case Some(f) => "#" + f case None => "")
  }
}
