/** The client share link of backend/utils/qrcode_gen.py: the `vmess://` URL
    that carries a user's connection parameters as base 64 of a JSON object,
    and the lookup that finds the user's name and alter id in the document
    before the URL is built. Drawing the QR image is not modelled. */
module ShareLink {
  import opened Results
  import opened Bytes
  import opened Base64
  import opened JsonText
  import opened PyText
  import opened ConfigTree

  /** The public address clients connect to, read from the `DOMAIN` and `PORT`
      environment variables at start-up. */
  datatype Endpoint = Endpoint(domain: string, port: string)

  const DEFAULT_DOMAIN: string := "management.hamnaghsheh.ir"
  const DEFAULT_PORT: string := "8443"
  const SCHEME: string := "vmess://"

  /** `os.getenv(name, default)` for both variables; `None` is an unset variable. */
  function EndpointOf(domainEnv: Option<string>, portEnv: Option<string>): (ep: Endpoint)
    ensures domainEnv.None? ==> ep.domain == DEFAULT_DOMAIN
    ensures portEnv.None? ==> ep.port == DEFAULT_PORT
    ensures domainEnv.Some? ==> ep.domain == domainEnv.value
    ensures portEnv.Some? ==> ep.port == portEnv.value
  {
    Endpoint(domainEnv.GetOr(DEFAULT_DOMAIN), portEnv.GetOr(DEFAULT_PORT))
  }

  /* ---------------------------------------------------------------------- */
  /* The link                                                                */

  /** The value under `key` in a decoded object; like a Python dict built from
      the members, a later duplicate wins. */
  function Get(ps: Pairs, key: string): (r: Option<string>)
    ensures r.Some? ==> exists i | 0 <= i < |ps| :: ps[i] == (key, r.value)
    ensures r.None? ==> forall i | 0 <= i < |ps| :: ps[i].0 != key
    decreases |ps|
  {
    if |ps| == 0 then None
    else if ps[|ps| - 1].0 == key then Some(ps[|ps| - 1].1)
    else Get(ps[..|ps| - 1], key)
  }

  /** The keys of the link object, in the order the source writes them. */
  const LINK_KEYS: seq<string> := ["v", "ps", "add", "port", "id", "aid", "net", "type", "host", "path", "tls"]

  /** Lines 12-24: the object behind the link. */
  function LinkFields(ep: Endpoint, userId: string, email: string, alterId: int): (r: Pairs)
    ensures |r| == |LINK_KEYS|
    ensures forall i | 0 <= i < |r| :: r[i].0 == LINK_KEYS[i]
  {
    [("v", "2"), ("ps", email), ("add", ep.domain), ("port", ep.port), ("id", userId),
     ("aid", Show(alterId)), ("net", "tcp"), ("type", "none"), ("host", ""), ("path", ""), ("tls", "tls")]
  }

  /** Line 27: base 64 of the UTF-8 bytes of the object's JSON text. */
  function LinkPayload(fields: Pairs): (r: string)
    ensures IsAscii(r)
  {
    Encode(Utf8(DumpObject(fields)))
  }

  /** generate_vmess_url: the scheme, then the encoded object. */
  function VmessUrl(ep: Endpoint, userId: string, email: string, alterId: int := DEFAULT_ALTER_ID): (url: string)
    ensures |url| >= |SCHEME| && url[..|SCHEME|] == SCHEME
    ensures IsAscii(url)
  {
    var payload := LinkPayload(LinkFields(ep, userId, email, alterId));
    SchemeIsAscii();
    AsciiConcat(SCHEME, payload);
    SCHEME + payload
  }

  lemma SchemeIsAscii()
    ensures IsAscii(SCHEME)
  {
    forall i | 0 <= i < |SCHEME| ensures SCHEME[i] as int < 128 {
      assert SCHEME[i] in "vmes:/";
    }
  }

  /** What a client does with a link: strip the scheme, decode the base 64,
      read the bytes as text and the text as a JSON object. */
  function DecodeVmessUrl(url: string): (r: Option<Pairs>) {
    if |url| < |SCHEME| || url[..|SCHEME|] != SCHEME then None
    else match Decode(url[|SCHEME|..])
      case None => None
      case Some(bytes) =>
        match AsciiText(bytes)
        case None => None
        case Some(text) => ReadObject(text)
  }

  /** Decoding a link gives back exactly the object it was built from. */
  lemma DecodeVmessUrlBack(ep: Endpoint, userId: string, email: string, alterId: int)
    ensures DecodeVmessUrl(VmessUrl(ep, userId, email, alterId)) == Some(LinkFields(ep, userId, email, alterId))
  {
    var fields := LinkFields(ep, userId, email, alterId);
    var text := DumpObject(fields);
    var url := VmessUrl(ep, userId, email, alterId);
    assert url[|SCHEME|..] == LinkPayload(fields);
    DecodeEncode(Utf8(text));
    AsciiUtf8(text);
    ReadDumpedObject(fields);
  }

  /** The fields a client reads from a link: the user's id, name and alter id,
      the endpoint, and the fixed transport settings. */
  lemma LinkCarries(ep: Endpoint, userId: string, email: string, alterId: int)
    ensures DecodeVmessUrl(VmessUrl(ep, userId, email, alterId)).Some?
    ensures var fs := DecodeVmessUrl(VmessUrl(ep, userId, email, alterId)).value;
      && Get(fs, "v") == Some("2")
      && Get(fs, "ps") == Some(email)
      && Get(fs, "add") == Some(ep.domain)
      && Get(fs, "port") == Some(ep.port)
      && Get(fs, "id") == Some(userId)
      && Get(fs, "aid").Some? && ParseInt(Get(fs, "aid").value) == Some(alterId)
      && Get(fs, "net") == Some("tcp")
      && Get(fs, "type") == Some("none")
      && Get(fs, "host") == Some("")
      && Get(fs, "path") == Some("")
      && Get(fs, "tls") == Some("tls")
  {
    DecodeVmessUrlBack(ep, userId, email, alterId);
    LinkUserFields(ep, userId, email, alterId);
    LinkEndpointFields(ep, userId, email, alterId);
    LinkFixedFields(ep, userId, email, alterId);
    ParseShow(alterId);
  }

  /** A key no later member repeats reads as that member's value. */
  lemma {:induction false} GetUnrepeated(ps: Pairs, i: nat, key: string)
    requires i < |ps| && ps[i].0 == key
    requires forall j | i < j < |ps| :: ps[j].0 != key
    ensures Get(ps, key) == Some(ps[i].1)
    decreases |ps|
  {
    if i < |ps| - 1 {
      var front := ps[..|ps| - 1];
      assert front[i] == ps[i];
      GetUnrepeated(front, i, key);
    }
  }

  /** The members that carry the user. */
  lemma LinkUserFields(ep: Endpoint, userId: string, email: string, alterId: int)
    ensures var fs := LinkFields(ep, userId, email, alterId);
      && Get(fs, "ps") == Some(email)
      && Get(fs, "id") == Some(userId)
      && Get(fs, "aid") == Some(Show(alterId))
  {
    var fs := LinkFields(ep, userId, email, alterId);
    assert Get(fs, "ps") == Some(email) by { LinkFieldAt(fs, 1); }
    assert Get(fs, "id") == Some(userId) by { LinkFieldAt(fs, 4); }
    assert Get(fs, "aid") == Some(Show(alterId)) by { LinkFieldAt(fs, 5); }
  }

  /** The members that carry the endpoint. */
  lemma LinkEndpointFields(ep: Endpoint, userId: string, email: string, alterId: int)
    ensures var fs := LinkFields(ep, userId, email, alterId);
      && Get(fs, "add") == Some(ep.domain)
      && Get(fs, "port") == Some(ep.port)
  {
    var fs := LinkFields(ep, userId, email, alterId);
    assert Get(fs, "add") == Some(ep.domain) by { LinkFieldAt(fs, 2); }
    assert Get(fs, "port") == Some(ep.port) by { LinkFieldAt(fs, 3); }
  }

  /** The members every link shares. */
  lemma LinkFixedFields(ep: Endpoint, userId: string, email: string, alterId: int)
    ensures var fs := LinkFields(ep, userId, email, alterId);
      && Get(fs, "v") == Some("2")
      && Get(fs, "net") == Some("tcp")
      && Get(fs, "type") == Some("none")
      && Get(fs, "host") == Some("")
      && Get(fs, "path") == Some("")
      && Get(fs, "tls") == Some("tls")
  {
    var fs := LinkFields(ep, userId, email, alterId);
    assert Get(fs, "v") == Some("2") by { LinkFieldAt(fs, 0); }
    assert Get(fs, "net") == Some("tcp") by { LinkFieldAt(fs, 6); }
    assert Get(fs, "type") == Some("none") by { LinkFieldAt(fs, 7); }
    assert Get(fs, "host") == Some("") by { LinkFieldAt(fs, 8); }
    assert Get(fs, "path") == Some("") by { LinkFieldAt(fs, 9); }
    assert Get(fs, "tls") == Some("tls") by { LinkFieldAt(fs, 10); }
  }

  lemma LinkFieldAt(fs: Pairs, i: nat)
    requires |fs| == |LINK_KEYS| && i < |fs|
    requires forall j | 0 <= j < |fs| :: fs[j].0 == LINK_KEYS[j]
    ensures Get(fs, LINK_KEYS[i]) == Some(fs[i].1)
  {
    KeysDistinct(i);
    GetUnrepeated(fs, i, LINK_KEYS[i]);
  }

  /** The link keys are pairwise different. */
  lemma KeysDistinct(i: nat)
    requires i < |LINK_KEYS|
    ensures forall j | i < j < |LINK_KEYS| :: LINK_KEYS[j] != LINK_KEYS[i]
  {
  }

  /* ---------------------------------------------------------------------- */
  /* Finding the user                                                        */

  /** The position of the first client of `cs` whose id is `u`. */
  function FirstMatch(cs: seq<Client>, u: string): (r: Option<nat>)
    ensures r.Some? ==> r.value < |cs| && cs[r.value].id == Some(u)
    ensures r.Some? ==> forall j | 0 <= j < r.value :: cs[j].id != Some(u)
    ensures r.None? ==> forall j | 0 <= j < |cs| :: cs[j].id != Some(u)
    decreases |cs|
  {
    if |cs| == 0 then None
    else if cs[0].id == Some(u) then Some(0)
    else match FirstMatch(cs[1..], u)
      case None => None
      case Some(k) => Some(k + 1)
  }

  /** The match a vmess inbound offers: its first client with id `u`. */
  function MatchIn(ib: Inbound, u: string): Option<Client> {
    if !IsVmess(ib) then None
    else match FirstMatch(ClientsOf(ib), u)
      case None => None
      case Some(k) => Some(ClientsOf(ib)[k])
  }

  /** The client generate_qrcode settles on: the match of the last inbound
      that offers one, since a later match overwrites an earlier one. */
  function Chosen(ibs: seq<Inbound>, u: string): Option<Client>
    decreases |ibs|
  {
    if |ibs| == 0 then None
    else match MatchIn(ibs[|ibs| - 1], u)
      case Some(c) => Some(c)
      case None => Chosen(ibs[..|ibs| - 1], u)
  }

  /** No client is chosen exactly when no inbound offers a match. */
  lemma {:induction false} ChosenNone(ibs: seq<Inbound>, u: string)
    ensures Chosen(ibs, u).None? <==> forall k | 0 <= k < |ibs| :: MatchIn(ibs[k], u).None?
    decreases |ibs|
  {
    if |ibs| > 0 {
      var n := |ibs| - 1;
      ChosenNone(ibs[..n], u);
      assert forall k | 0 <= k < n :: ibs[..n][k] == ibs[k];
    }
  }

  /** Inbound `k` offers a match and no later inbound does. */
  predicate LastMatchAt(ibs: seq<Inbound>, u: string, k: nat)
    requires k < |ibs|
  {
    MatchIn(ibs[k], u).Some? && forall k' | k < k' < |ibs| :: MatchIn(ibs[k'], u).None?
  }

  /** The chosen client is the match of an inbound after which none offers one. */
  lemma {:induction false} ChosenIsLastMatch(ibs: seq<Inbound>, u: string) returns (k: nat)
    requires Chosen(ibs, u).Some?
    ensures k < |ibs| && LastMatchAt(ibs, u, k) && MatchIn(ibs[k], u) == Chosen(ibs, u)
    decreases |ibs|
  {
    var n := |ibs| - 1;
    if MatchIn(ibs[n], u).Some? {
      k := n;
    } else {
      var front := ibs[..n];
      assert Chosen(ibs, u) == Chosen(front, u);
      k := ChosenIsLastMatch(front, u);
      assert front[k] == ibs[k];
      forall k' | k < k' < |ibs| ensures MatchIn(ibs[k'], u).None? {
        if k' < n {
          assert front[k'] == ibs[k'];
        }
      }
    }
  }

  /** An inbound offers a match exactly when it is vmess and lists the id. */
  lemma MatchInListed(ib: Inbound, u: string)
    ensures MatchIn(ib, u).Some? <==> exists c | c in ListedClients(ib) :: c.id == Some(u)
    ensures MatchIn(ib, u).Some? ==> MatchIn(ib, u).value in ListedClients(ib) && MatchIn(ib, u).value.id == Some(u)
  {
    if IsVmess(ib) && MatchIn(ib, u).None? {
      var cs := ClientsOf(ib);
      forall c | c in cs ensures c.id != Some(u) {
        var j :| 0 <= j < |cs| && cs[j] == c;
      }
    }
  }

  /** Some inbound offers a match exactly when the document lists a client with that id. */
  lemma {:induction false} ChosenIffListed(ibs: seq<Inbound>, u: string)
    ensures Chosen(ibs, u).Some? <==> exists c | c in VmessClientsOf(ibs) :: c.id == Some(u)
    ensures Chosen(ibs, u).Some? ==> Chosen(ibs, u).value in VmessClientsOf(ibs) && Chosen(ibs, u).value.id == Some(u)
    decreases |ibs|
  {
    if |ibs| > 0 {
      var n := |ibs| - 1;
      ChosenIffListed(ibs[..n], u);
      MatchInListed(ibs[n], u);
      assert VmessClientsOf(ibs) == VmessClientsOf(ibs[..n]) + ListedClients(ibs[n]);
    }
  }

  /** The name and alter id the link is built with: the chosen client's, each
      with its own default, or "Unknown" and 64 when nobody matched. */
  function Credentials(chosen: Option<Client>): (string, int) {
    match chosen
    case None => (UNKNOWN, DEFAULT_ALTER_ID)
    case Some(c) => (c.email.GetOr(UNKNOWN), c.alterId.GetOr(DEFAULT_ALTER_ID))
  }

  /** Lines 32-43 of generate_qrcode: walk every vmess inbound, stop at the
      first matching client within one, and keep the last inbound's match. */
  method LookupClient(cfg: Config, u: string) returns (email: string, alterId: int)
    ensures (email, alterId) == Credentials(Chosen(InboundsOf(cfg), u))
    ensures !HasVmessClient(cfg, u) ==> email == UNKNOWN && alterId == DEFAULT_ALTER_ID
  {
    email, alterId := UNKNOWN, DEFAULT_ALTER_ID;
    var ibs := InboundsOf(cfg);
    var i := 0;
    while i < |ibs|
      invariant 0 <= i <= |ibs|
      invariant (email, alterId) == Credentials(Chosen(ibs[..i], u))
    {
      assert ibs[..i + 1][..i] == ibs[..i];
      if IsVmess(ibs[i]) {
        var clients := ClientsOf(ibs[i]);
        var j := 0;
        while j < |clients|
          invariant 0 <= j <= |clients|
          invariant forall j' | 0 <= j' < j :: clients[j'].id != Some(u)
        {
          if clients[j].id == Some(u) {
            assert FirstMatch(clients, u) == Some(j);
            email := clients[j].email.GetOr(UNKNOWN);
            alterId := clients[j].alterId.GetOr(DEFAULT_ALTER_ID);
            break;
          }
          j := j + 1;
        }
      }
      i := i + 1;
    }
    assert ibs[..i] == ibs;
    ChosenIffListed(ibs, u);
  }

  /** Lines 32-45: the text generate_qrcode encodes in the QR image. */
  method ShareUrl(cfg: Config, u: string, ep: Endpoint) returns (url: string)
    ensures url == VmessUrl(ep, u, Credentials(Chosen(InboundsOf(cfg), u)).0, Credentials(Chosen(InboundsOf(cfg), u)).1)
    ensures DecodeVmessUrl(url).Some? && Get(DecodeVmessUrl(url).value, "id") == Some(u)
  {
    var email, alterId := LookupClient(cfg, u);
    url := VmessUrl(ep, u, email, alterId);
    LinkCarries(ep, u, email, alterId);
  }
}
