/** The parsed proxy configuration document, restricted to the members the
    manager reads or writes. Every other member of each JSON object is kept,
    uninterpreted, in an `extra` map so that edits can be shown to leave it
    alone. By convention an `extra` map never holds a key its record names
    (`inbounds`, `protocol`, `settings`, `clients`, `id`, `email`,
    `alterId`): a parsed JSON object has each key once, and that key lives
    in the named field. */
module ConfigTree {
  import opened Results

  /** A JSON value in a part of the document the manager never interprets;
      a number is kept as its JSON text, fraction and exponent included. */
  datatype Json =
    | JNull
    | JBool(b: bool)
    | JNum(text: string)
    | JStr(s: string)
    | JArr(items: seq<Json>)
    | JObj(members: map<string, Json>)

  /** The members of a JSON object other than the ones its record names. */
  type Fields = map<string, Json>

  /** One entry of `settings.clients`: the keys `id`, `email`, `alterId`, each of which may be absent. */
  datatype Client = Client(id: Option<string>, email: Option<string>, alterId: Option<int>, extra: Fields)

  /** The `settings` object of an inbound; `clients` may be absent. */
  datatype Settings = Settings(clients: Option<seq<Client>>, extra: Fields)

  /** One entry of `inbounds`: `protocol` and `settings` may be absent. */
  datatype Inbound = Inbound(protocol: Option<string>, settings: Option<Settings>, extra: Fields)

  /** The whole document; the `inbounds` key may be absent. */
  datatype Config = Config(inbounds: Option<seq<Inbound>>, extra: Fields)

  /** The protocol tag of the one kind of inbound whose clients the manager edits. */
  const VMESS: string := "vmess"

  /** The alter id assumed wherever a request or a client record leaves it out. */
  const DEFAULT_ALTER_ID: int := 64

  /** The name shown for a client record without an `email`. */
  const UNKNOWN: string := "Unknown"

  /** `inbound.get("protocol") == "vmess"` */
  predicate IsVmess(ib: Inbound) {
    ib.protocol == Some(VMESS)
  }

  /** `inbound.get("settings", {}).get("clients", [])`: the client list, empty when either key is missing. */
  function ClientsOf(ib: Inbound): seq<Client> {
    match ib.settings
    case None => []
    case Some(st) => st.clients.GetOr([])
  }

  /** `config["inbounds"]`, or the empty list when the key is missing. */
  function InboundsOf(cfg: Config): seq<Inbound> {
    cfg.inbounds.GetOr([])
  }

  /** The clients a vmess inbound contributes to a listing; other inbounds contribute none. */
  function ListedClients(ib: Inbound): seq<Client> {
    if IsVmess(ib) then ClientsOf(ib) else []
  }

  /** The clients of every vmess inbound of `ibs`, inbound after inbound, each list in its own order. */
  function VmessClientsOf(ibs: seq<Inbound>): seq<Client>
    decreases |ibs|
  {
    if |ibs| == 0 then [] else VmessClientsOf(ibs[..|ibs| - 1]) + ListedClients(ibs[|ibs| - 1])
  }

  /** Every client of every vmess inbound of the document, in document order. */
  function VmessClients(cfg: Config): seq<Client> {
    VmessClientsOf(InboundsOf(cfg))
  }

  /** True iff some client of some vmess inbound carries the id `u`. */
  predicate HasVmessClient(cfg: Config, u: string) {
    exists c | c in VmessClients(cfg) :: c.id == Some(u)
  }

  /** `VmessClientsOf` distributes over concatenation of inbound lists. */
  lemma {:induction false} VmessClientsOfAppend(a: seq<Inbound>, b: seq<Inbound>)
    ensures VmessClientsOf(a + b) == VmessClientsOf(a) + VmessClientsOf(b)
    decreases |b|
  {
    if |b| == 0 {
      assert a + b == a;
    } else {
      var b' := b[..|b| - 1];
      assert (a + b)[..|a + b| - 1] == a + b';
      assert (a + b)[|a + b| - 1] == b[|b| - 1];
      VmessClientsOfAppend(a, b');
    }
  }

  /** Reading `VmessClientsOf` front to back: the first inbound's clients come first. */
  lemma {:induction false} VmessClientsOfCons(ibs: seq<Inbound>)
    requires |ibs| > 0
    ensures VmessClientsOf(ibs) == ListedClients(ibs[0]) + VmessClientsOf(ibs[1..])
  {
    var head := [ibs[0]];
    assert ibs == head + ibs[1..];
    VmessClientsOfAppend(head, ibs[1..]);
    assert head[..|head| - 1] == [];
    assert VmessClientsOf(head) == VmessClientsOf([]) + ListedClients(ibs[0]);
  }

  /** The listing of a list of inbounds, split around its `k`-th inbound. */
  lemma {:induction false} VmessClientsSplit(ibs: seq<Inbound>, k: nat)
    requires k < |ibs|
    ensures VmessClientsOf(ibs) == VmessClientsOf(ibs[..k]) + ListedClients(ibs[k]) + VmessClientsOf(ibs[k + 1..])
  {
    var rest := [ibs[k]] + ibs[k + 1..];
    assert ibs == ibs[..k] + rest;
    VmessClientsOfAppend(ibs[..k], rest);
    VmessClientsOfCons(rest);
    assert rest[1..] == ibs[k + 1..];
  }
}
