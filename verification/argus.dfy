/**
  The ARGUS input plugin: it is configured with an endpoint in
  `URL#alias` notation and the host credentials, then asks the PAP for the
  alias's policies and keeps the DNs of the ban rules.

  The HTTPS/SOAP exchange is not modelled: its outcome is the `reply`
  parameter of `Process`.
*/
module Argus {
  import opened Wrappers
  import opened Text
  import Pap

  const PARSE_ERROR: string := "Failed to parse URL#alias notation"

  /** `source_url.split("#")` unpacked into exactly two names: the URL and
      the alias, or nothing when the split does not give two parts. */
  function ParseUrlAlias(sourceUrl: string): Option<(string, string)>
  {
    var parts := Split(sourceUrl, '#');
    if |parts| == 2 then Some((parts[0], parts[1])) else None
  }

  /** The notation parses exactly when it holds one "#"; the URL and the
      alias are then the text before and after it, and neither holds a "#". */
  lemma ParseUrlAliasSpec(sourceUrl: string)
    ensures ParseUrlAlias(sourceUrl).Some? <==> multiset(sourceUrl)['#'] == 1
    ensures ParseUrlAlias(sourceUrl).Some? ==>
      var (url, alias) := ParseUrlAlias(sourceUrl).value;
      url + "#" + alias == sourceUrl && '#' !in url && '#' !in alias
  {
    SplitCount(sourceUrl, '#');
    var parts := Split(sourceUrl, '#');
    if |parts| == 2 {
      JoinSplit(sourceUrl, '#');
      assert parts[1..] == [parts[1]];
      assert parts[0] in parts && parts[1] in parts;
    }
  }

  /** Any URL and alias without "#" are parsed back from their notation. */
  lemma ParseUrlAliasRoundTrip(url: string, alias: string)
    requires '#' !in url && '#' !in alias
    ensures ParseUrlAlias(url + "#" + alias) == Some((url, alias))
  {
    SplitJoin([url, alias], '#');
    assert [url, alias][1..] == [alias];
    assert Join([url, alias], '#') == url + "#" + alias;
  }

  /** The text of the error raised when the transport fails. */
  function TransportError(url: string, alias: string, message: string): string
  {
    "Failed to query ARGUS '" + url + "' for '" + alias + "': " + message
  }

  /** The text of the error raised for an HTTP status other than 200. */
  function StatusError(url: string, alias: string, code: nat): string
  {
    "Failed to query ARGUS '" + url + "' for '" + alias + "' (Code: " + NatToString(code) + ")"
  }

  class ArgusInput {
    var url: Option<string>
    var alias: Option<string>
    var hostcert: Option<string>
    var hostkey: Option<string>
    var caPath: Option<string>

    /** A fresh plugin has no setting. */
    constructor ()
      ensures url == None && alias == None
      ensures hostcert == None && hostkey == None && caPath == None
    {
      url := None;
      alias := None;
      hostcert := None;
      hostkey := None;
      caPath := None;
    }

    /** `configure`: on a notation that does not parse, the error and no
        field touched; otherwise no error, the URL and alias parsed from the
        notation and the three credential paths taken as given. */
    method Configure(sourceUrl: string, hostcert: string, hostkey: string, caPath: string)
      returns (err: Option<string>)
      modifies this
      ensures ParseUrlAlias(sourceUrl).None? ==>
        err == Some(PARSE_ERROR)
        && url == old(url) && alias == old(alias)
        && this.hostcert == old(this.hostcert) && this.hostkey == old(this.hostkey)
        && this.caPath == old(this.caPath)
      ensures ParseUrlAlias(sourceUrl).Some? ==>
        err == None
        && url == Some(ParseUrlAlias(sourceUrl).value.0)
        && alias == Some(ParseUrlAlias(sourceUrl).value.1)
        && this.hostcert == Some(hostcert) && this.hostkey == Some(hostkey)
        && this.caPath == Some(caPath)
    {
      var parts := Split(sourceUrl, '#');
      if |parts| != 2 {
        return Some(PARSE_ERROR);
      }
      url := Some(parts[0]);
      alias := Some(parts[1]);
      this.hostcert := Some(hostcert);
      this.hostkey := Some(hostkey);
      this.caPath := Some(caPath);
      err := None;
    }

    /** `process` on a configured plugin, given what the PAP replied: a
        transport failure or a status other than 200 is an error naming the
        URL and alias and no DN list; a document the parser refuses is the
        parser's error; otherwise the DNs of the ban rules in document order. */
    method Process(reply: Pap.Reply) returns (r: Result<seq<string>, string>)
      requires url.Some? && alias.Some?
      ensures reply.CurlError? ==> r == Err(TransportError(url.value, alias.value, reply.message))
      ensures reply.Response? && reply.code != 200 ==>
        r == Err(StatusError(url.value, alias.value, reply.code))
      ensures reply.Response? && reply.code == 200 && reply.body.Err? ==> r == Err(reply.body.error)
      ensures reply.Response? && reply.code == 200 && reply.body.Ok? ==>
        r == Ok(Pap.DenyDns(reply.body.value))
    {
      match reply {
        case CurlError(message) =>
          return Err(TransportError(url.value, alias.value, message));
        case Response(code, body) =>
          if code != 200 {
            return Err(StatusError(url.value, alias.value, code));
          }
          match body {
            case Err(e) =>
              return Err(e);
            case Ok(rules) =>
              var dns := Pap.ExtractDenyDns(rules);
              return Ok(dns);
          }
      }
    }
  }
}
