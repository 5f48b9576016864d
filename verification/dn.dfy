/** Conversion of a DN from the comma-separated form of section 2.1 of
    RFC 2253 (most specific component first) into the slash-separated
    OpenSSL form (most specific component last). The conversion splits on
    every comma, so the escaping of section 2.4 and the `+`-joined
    multi-valued components of section 2.2 are not honoured. */
module Dn {
  import opened Text

  /** `[x.strip() for x in parts]` */
  function StripAll(parts: seq<string>): (r: seq<string>)
    ensures |r| == |parts|
    ensures forall i {:trigger r[i]} :: 0 <= i < |parts| ==> r[i] == Strip(parts[i])
  {
    seq(|parts|, i requires 0 <= i < |parts| => Strip(parts[i]))
  }

  /** `rfc_to_openssl`: split on ",", strip each component, reverse their
      order, join them with "/" and put a "/" in front. */
  function RfcToOpenssl(dn: string): (path: string)
    ensures path != [] && path[0] == '/'
  {
    "/" + Join(Reverse(StripAll(Split(dn, ','))), '/')
  }

  /** Every DN of `dns` converted, in order. */
  function ConvertAll(dns: seq<string>): (paths: seq<string>)
    ensures |paths| == |dns|
    ensures forall i {:trigger paths[i]} :: 0 <= i < |dns| ==> paths[i] == RfcToOpenssl(dns[i])
  {
    Map(RfcToOpenssl, dns)
  }

  /** Converting a list one DN longer appends that DN's conversion. */
  lemma ConvertAllAppend(dns: seq<string>, dn: string)
    ensures ConvertAll(dns + [dn]) == ConvertAll(dns) + [RfcToOpenssl(dn)]
  {
    MapConcat(RfcToOpenssl, dns, [dn]);
    assert Map(RfcToOpenssl, [dn]) == [RfcToOpenssl(dn)];
  }

  /** Converting two lists one after the other converts their concatenation. */
  lemma ConvertAllConcat(a: seq<string>, b: seq<string>)
    ensures ConvertAll(a + b) == ConvertAll(a) + ConvertAll(b)
  {
    MapConcat(RfcToOpenssl, a, b);
  }

  /** A path is among the converted DNs exactly when it is the conversion of
      one of them. */
  lemma ConvertAllMember(dns: seq<string>, path: string)
    ensures path in ConvertAll(dns) <==> exists dn :: dn in dns && path == RfcToOpenssl(dn)
  {
    var paths := ConvertAll(dns);
    if path in paths {
      var i :| 0 <= i < |paths| && paths[i] == path;
      assert dns[i] in dns;
    }
    if exists dn :: dn in dns && path == RfcToOpenssl(dn) {
      var dn :| dn in dns && path == RfcToOpenssl(dn);
      var i :| 0 <= i < |dns| && dns[i] == dn;
      assert paths[i] == path;
    }
  }

  /** The RFC 2253 form of a path, as a partner of `RfcToOpenssl`: drop the
      leading "/", split on "/", reverse, join with ",". */
  function OpensslToRfc(path: string): string
  {
    var body := if path != [] && path[0] == '/' then path[1..] else path;
    Join(Reverse(Split(body, '/')), ',')
  }

  /** No stripped comma component of a DN without `c` holds `c`. */
  lemma ComponentsAbsent(dn: string, c: char)
    requires c !in dn
    ensures forall i :: 0 <= i < |Split(dn, ',')| ==> c !in StripAll(Split(dn, ','))[i]
  {
    var parts := Split(dn, ',');
    SplitAbsent(dn, ',', c);
    forall i | 0 <= i < |parts|
      ensures c !in StripAll(parts)[i]
    {
      assert parts[i] in parts;
      StripAbsent(parts[i], c);
    }
  }

  /** Splitting the converted path (after its leading "/") on "/" gives the
      stripped comma components of the DN in reverse order, so that path
      component `i` is stripped comma component `n - 1 - i` (see `Reverse`
      and `StripAll`), for a DN with no "/" of its own. */
  lemma RfcToOpensslComponents(dn: string)
    requires '/' !in dn
    ensures Split(RfcToOpenssl(dn)[1..], '/') == Reverse(StripAll(Split(dn, ',')))
  {
    var stripped := StripAll(Split(dn, ','));
    var r := Reverse(stripped);
    ComponentsAbsent(dn, '/');
    forall p | p in r
      ensures '/' !in p
    {
      ReverseMember(stripped, p);
      var i :| 0 <= i < |stripped| && stripped[i] == p;
    }
    SplitJoin(r, '/');
    var path := RfcToOpenssl(dn);
    assert path == "/" + Join(r, '/');
    assert path[1..] == Join(r, '/');
  }

  /** Components that carry no surrounding whitespace are left alone by `StripAll`. */
  lemma StripAllStripped(parts: seq<string>)
    requires forall p :: p in parts ==> Stripped(p)
    ensures StripAll(parts) == parts
  {
    forall i | 0 <= i < |parts|
      ensures StripAll(parts)[i] == parts[i]
    {
      assert parts[i] in parts;
    }
  }

  /** A DN whose components carry no surrounding whitespace and no "/"
      converts to a path that converts back to the same DN. */
  lemma RfcRoundTrip(dn: string)
    requires '/' !in dn
    requires forall p :: p in Split(dn, ',') ==> Stripped(p)
    ensures OpensslToRfc(RfcToOpenssl(dn)) == dn
  {
    var parts := Split(dn, ',');
    RfcToOpensslComponents(dn);
    StripAllStripped(parts);
    ReverseReverse(parts);
    JoinSplit(dn, ',');
  }

  /** A path that starts with "/" and whose components carry no surrounding
      whitespace and no "," converts to a DN that converts back to the same
      path. */
  lemma OpensslRoundTrip(path: string)
    requires path != [] && path[0] == '/'
    requires ',' !in path
    requires forall p :: p in Split(path[1..], '/') ==> Stripped(p)
    ensures RfcToOpenssl(OpensslToRfc(path)) == path
  {
    var body := path[1..];
    assert path == "/" + body;
    var comps := Split(body, '/');
    var rev := Reverse(comps);
    assert ',' !in body;
    SplitAbsent(body, '/', ',');
    assert forall p :: p in rev ==> ',' !in p;
    SplitJoin(rev, ',');
    assert forall p :: p in rev ==> Stripped(p);
    StripAllStripped(rev);
    ReverseReverse(comps);
    JoinSplit(body, '/');
  }

  /** A DN assembled from components that carry no comma and no surrounding
      whitespace converts to those components in reverse order behind "/". */
  lemma RfcToOpensslJoin(parts: seq<string>)
    requires |parts| >= 1
    requires forall p :: p in parts ==> ',' !in p && Stripped(p)
    ensures RfcToOpenssl(Join(parts, ',')) == "/" + Join(Reverse(parts), '/')
  {
    SplitJoin(parts, ',');
    StripAllStripped(parts);
  }

  lemma JoinThree(a: string, b: string, c: string, sep: char)
    ensures Join([a, b, c], sep) == a + [sep] + b + [sep] + c
  {
    assert [a, b, c][1..] == [b, c];
    assert [b, c][1..] == [c];
    assert Join([b, c], sep) == b + [sep] + c;
    assert a + [sep] + (b + [sep] + c) == a + [sep] + b + [sep] + c;
  }

  /** The conversion of three components joined with commas. */
  lemma ThreeJoined(cn: string, o: string, c: string)
    requires ',' !in cn && ',' !in o && ',' !in c
    requires Stripped(cn) && Stripped(o) && Stripped(c)
    ensures RfcToOpenssl(Join([cn, o, c], ',')) == "/" + Join([c, o, cn], '/')
  {
    var parts := [cn, o, c];
    assert forall p :: p in parts ==> ',' !in p && Stripped(p);
    RfcToOpensslJoin(parts);
    ReverseThree(cn, o, c);
  }

  lemma ReverseThree<T>(a: T, b: T, c: T)
    ensures Reverse([a, b, c]) == [c, b, a]
  {
  }

  /** A DN of three components that carry no comma and no surrounding
      whitespace converts to the three in reverse order. */
  lemma ThreeComponents(cn: string, o: string, c: string)
    requires ',' !in cn && ',' !in o && ',' !in c
    requires Stripped(cn) && Stripped(o) && Stripped(c)
    ensures RfcToOpenssl(cn + "," + o + "," + c) == "/" + c + "/" + o + "/" + cn
  {
    JoinThree(cn, o, c, ',');
    ThreeJoined(cn, o, c);
    JoinThree(c, o, cn, '/');
    PrependChain("/", c, "/", o, "/", cn);
  }

  lemma PrependChain<T>(x: seq<T>, a: seq<T>, b: seq<T>, c: seq<T>, d: seq<T>, e: seq<T>)
    ensures x + (a + b + c + d + e) == x + a + b + c + d + e
  {
  }

  /** The worked example: "CN=Jane Doe,O=Example,C=UK" converts to
      "/C=UK/O=Example/CN=Jane Doe". */
  lemma JaneDoe()
    ensures RfcToOpenssl("CN=Jane Doe,O=Example,C=UK") == "/C=UK/O=Example/CN=Jane Doe"
  {
    JaneDoeText();
    ThreeComponents("CN=Jane Doe", "O=Example", "C=UK");
  }

  /** The example DN and path, cut into their components. */
  lemma JaneDoeText()
    ensures "CN=Jane Doe,O=Example,C=UK" == "CN=Jane Doe" + "," + "O=Example" + "," + "C=UK"
    ensures "/C=UK/O=Example/CN=Jane Doe" == "/" + "C=UK" + "/" + "O=Example" + "/" + "CN=Jane Doe"
  {
  }

  /** An empty DN converts to the bare root "/". */
  lemma EmptyDn()
    ensures RfcToOpenssl("") == "/"
  {
  }
}
