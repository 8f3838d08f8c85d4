/** Editing the client lists of the configuration document
    (`add_user` and `remove_user` of backend/utils/v2ray_config.py).
    Both are pure: they take the parsed document and return the edited one,
    or the error the source raises. */
module ConfigEdit {
  import opened Results
  import opened ConfigTree

  /** The exceptions the two edits raise. */
  datatype EditError =
    | NoVmessInbound   // add_user: no inbound has protocol "vmess"
    | NoInbounds       // remove_user: the document has no `inbounds` key
    | MissingSettings  // remove_user: `inbound["settings"]` on a vmess inbound without settings (KeyError)

  /** The text the exception carries, which the routes hand back as the error detail. */
  function Message(e: EditError): string {
    match e
    case NoVmessInbound => "No VMess inbound found in config"
    case NoInbounds => "No inbounds in config"
    case MissingSettings => "'settings'"
  }

  /** `k` is the index of the first vmess inbound of `ibs`. */
  predicate IsFirstVmess(ibs: seq<Inbound>, k: int) {
    0 <= k < |ibs| && IsVmess(ibs[k]) && forall j | 0 <= j < k :: !IsVmess(ibs[j])
  }

  /** The search loop of add_user: the first inbound whose protocol is "vmess". */
  function FirstVmess(ibs: seq<Inbound>): (r: Option<nat>)
    ensures r.Some? ==> IsFirstVmess(ibs, r.value)
    ensures r.None? <==> forall j | 0 <= j < |ibs| :: !IsVmess(ibs[j])
    decreases |ibs|
  {
    if |ibs| == 0 then None
    else if IsVmess(ibs[0]) then Some(0)
    else
      match FirstVmess(ibs[1..])
      case None => None
      case Some(k) => Some(k + 1)
  }

  /** The record add_user appends: exactly the keys `id`, `alterId` and `email`. */
  function NewClient(userId: string, email: string, alterId: int): Client {
    Client(Some(userId), Some(email), Some(alterId), map[])
  }

  /** `after` is `before` with `c` appended to its client list, `settings` and
      `clients` created empty first when missing, and nothing else changed. */
  predicate Appended(before: Inbound, after: Inbound, c: Client) {
    && after.protocol == before.protocol
    && after.extra == before.extra
    && after.settings.Some?
    && after.settings.value.clients == Some(ClientsOf(before) + [c])
    && after.settings.value.extra == (if before.settings.Some? then before.settings.value.extra else map[])
  }

  /** `after` differs from `before` only in the first vmess inbound, which has `c` appended. */
  predicate Added(before: Config, after: Config, c: Client) {
    var ibs := InboundsOf(before);
    && after.extra == before.extra
    && after.inbounds.Some?
    && |after.inbounds.value| == |ibs|
    && forall i | 0 <= i < |ibs| ::
         if IsFirstVmess(ibs, i) then Appended(ibs[i], after.inbounds.value[i], c)
         else after.inbounds.value[i] == ibs[i]
  }

  /** Lines 38-47: create `settings` and `clients` if missing, then append. */
  function AppendClient(ib: Inbound, c: Client): (r: Inbound)
    ensures Appended(ib, r, c)
  {
    var st := ib.settings.GetOr(Settings(None, map[]));
    ib.(settings := Some(st.(clients := Some(st.clients.GetOr([]) + [c]))))
  }

  /** add_user: append one `{id, alterId, email}` record to the first vmess
      inbound. There is no duplicate check. */
  function AddUser(cfg: Config, userId: string, email: string, alterId: int := DEFAULT_ALTER_ID): (r: Result<Config, EditError>)
    ensures r.Failure? <==> forall j | 0 <= j < |InboundsOf(cfg)| :: !IsVmess(InboundsOf(cfg)[j])
    ensures r.Failure? ==> r.error == NoVmessInbound
    ensures r.Success? ==> Added(cfg, r.value, NewClient(userId, email, alterId))
  {
    var ibs := InboundsOf(cfg);
    match FirstVmess(ibs)
    case None => Failure(NoVmessInbound)
    case Some(k) =>
      Success(cfg.(inbounds := Some(ibs[k := AppendClient(ibs[k], NewClient(userId, email, alterId))])))
  }

  /** The comprehension of line 59: the clients whose `id` is not `u`, in their original order.
      A client without an `id` is kept (`None != user_id`). */
  function Without(cs: seq<Client>, u: string): (r: seq<Client>)
    ensures forall c :: c in r <==> c in cs && c.id != Some(u)
    ensures |r| <= |cs|
    decreases |cs|
  {
    if |cs| == 0 then []
    else (if cs[0].id == Some(u) then [] else [cs[0]]) + Without(cs[1..], u)
  }

  /** A vmess inbound without `settings`: line 59 raises KeyError on it. */
  predicate Unsettled(ib: Inbound) {
    IsVmess(ib) && ib.settings.None?
  }

  /** Lines 57-61 for one inbound: a vmess inbound gets `clients` set to its
      filtered list (created if it was missing); any other inbound is untouched. */
  function FilterInbound(ib: Inbound, u: string): Inbound {
    if IsVmess(ib) && ib.settings.Some? then
      ib.(settings := Some(ib.settings.value.(clients := Some(Without(ClientsOf(ib), u)))))
    else ib
  }

  function FilterInbounds(ibs: seq<Inbound>, u: string): (r: seq<Inbound>)
    ensures |r| == |ibs|
    ensures forall i | 0 <= i < |ibs| :: r[i] == FilterInbound(ibs[i], u)
  {
    seq(|ibs|, i requires 0 <= i < |ibs| => FilterInbound(ibs[i], u))
  }

  /** `after` is `before` with the client list of the vmess inbound filtered, nothing else changed. */
  predicate FilteredInbound(before: Inbound, after: Inbound, u: string) {
    if IsVmess(before) then
      && before.settings.Some?
      && after.protocol == before.protocol
      && after.extra == before.extra
      && after.settings == Some(before.settings.value.(clients := Some(Without(ClientsOf(before), u))))
    else after == before
  }

  /** `after` is `before` with every vmess inbound filtered and everything else unchanged. */
  predicate Removed(before: Config, after: Config, u: string) {
    && before.inbounds.Some?
    && after.extra == before.extra
    && after.inbounds.Some?
    && |after.inbounds.value| == |before.inbounds.value|
    && forall i | 0 <= i < |before.inbounds.value| ::
         FilteredInbound(before.inbounds.value[i], after.inbounds.value[i], u)
  }

  /** remove_user: drop every client with id `u` from every vmess inbound. */
  function RemoveUser(cfg: Config, u: string): (r: Result<Config, EditError>)
    ensures r.Failure? <==>
      cfg.inbounds.None? || exists j | 0 <= j < |cfg.inbounds.value| :: Unsettled(cfg.inbounds.value[j])
    ensures r.Failure? ==> r.error == (if cfg.inbounds.None? then NoInbounds else MissingSettings)
    ensures r.Success? ==> Removed(cfg, r.value, u)
  {
    if cfg.inbounds.None? then Failure(NoInbounds)
    else
      var ibs := cfg.inbounds.value;
      if exists j | 0 <= j < |ibs| :: Unsettled(ibs[j]) then Failure(MissingSettings)
      else Success(cfg.(inbounds := Some(FilterInbounds(ibs, u))))
  }

  /* ---------------------------------------------------------------------- */
  /* Properties of the client-list filter                                    */

  /** The filter acts on each part of a split list separately, so it keeps the survivors' order. */
  lemma {:induction false} WithoutAppend(a: seq<Client>, b: seq<Client>, u: string)
    ensures Without(a + b, u) == Without(a, u) + Without(b, u)
    decreases |a|
  {
    if |a| == 0 {
      assert a + b == b;
    } else {
      assert (a + b)[0] == a[0];
      assert (a + b)[1..] == a[1..] + b;
      WithoutAppend(a[1..], b, u);
    }
  }

  /** Filtering a list in which nobody has id `u` changes nothing. */
  lemma {:induction false} WithoutAbsent(cs: seq<Client>, u: string)
    requires forall c | c in cs :: c.id != Some(u)
    ensures Without(cs, u) == cs
    decreases |cs|
  {
    if |cs| > 0 {
      assert cs[0] in cs;
      assert forall c | c in cs[1..] :: c in cs;
      WithoutAbsent(cs[1..], u);
      assert cs == [cs[0]] + cs[1..];
    }
  }

  /** Filtering twice is filtering once. */
  lemma WithoutIdempotent(cs: seq<Client>, u: string)
    ensures Without(Without(cs, u), u) == Without(cs, u)
  {
    WithoutAbsent(Without(cs, u), u);
  }

  /* ---------------------------------------------------------------------- */
  /* Properties of remove_user                                               */

  /** Running remove_user a second time with the same id changes nothing more. */
  lemma RemoveIdempotent(cfg: Config, u: string)
    requires RemoveUser(cfg, u).Success?
    ensures RemoveUser(RemoveUser(cfg, u).value, u) == RemoveUser(cfg, u)
  {
    var once := RemoveUser(cfg, u).value;
    var ibs, ibs1 := cfg.inbounds.value, once.inbounds.value;
    forall j | 0 <= j < |ibs1|
      ensures !Unsettled(ibs1[j])
    {
      assert !Unsettled(ibs[j]);
    }
    var twice := RemoveUser(once, u).value;
    forall i | 0 <= i < |ibs|
      ensures twice.inbounds.value[i] == ibs1[i]
    {
      if IsVmess(ibs[i]) {
        WithoutIdempotent(ClientsOf(ibs[i]), u);
      }
    }
    assert twice.inbounds.value == ibs1;
  }

  /** Every vmess inbound has both `settings` and `settings.clients`. */
  predicate FullySettled(cfg: Config) {
    forall i | 0 <= i < |InboundsOf(cfg)| ::
      IsVmess(InboundsOf(cfg)[i]) ==>
        InboundsOf(cfg)[i].settings.Some? && InboundsOf(cfg)[i].settings.value.clients.Some?
  }

  /** The clients of the `i`-th inbound appear in the listing of all vmess clients when it is a vmess inbound. */
  lemma ListedClientsIncluded(ibs: seq<Inbound>, i: nat)
    requires i < |ibs|
    ensures forall c | c in ListedClients(ibs[i]) :: c in VmessClientsOf(ibs)
  {
    assert ibs == ibs[..i] + ([ibs[i]] + ibs[i + 1..]);
    VmessClientsOfAppend(ibs[..i], [ibs[i]] + ibs[i + 1..]);
    VmessClientsOfCons([ibs[i]] + ibs[i + 1..]);
    assert ([ibs[i]] + ibs[i + 1..])[1..] == ibs[i + 1..];
  }

  /** Removing an id no vmess client carries leaves the document exactly as it
      was, provided every vmess inbound already has a `clients` list (otherwise
      line 59 creates an empty one, see RemoveCreatesClientsKey). */
  lemma RemoveAbsentIsIdentity(cfg: Config, u: string)
    requires cfg.inbounds.Some?
    requires FullySettled(cfg)
    requires !HasVmessClient(cfg, u)
    ensures RemoveUser(cfg, u) == Success(cfg)
  {
    var ibs := cfg.inbounds.value;
    assert InboundsOf(cfg) == ibs;
    assert forall j | 0 <= j < |ibs| :: !Unsettled(ibs[j]);
    var after := RemoveUser(cfg, u).value;
    forall i | 0 <= i < |ibs|
      ensures after.inbounds.value[i] == ibs[i]
    {
      if IsVmess(ibs[i]) {
        ListedClientsIncluded(ibs, i);
        WithoutAbsent(ClientsOf(ibs[i]), u);
      }
    }
    assert after.inbounds.value == ibs;
  }

  /** The document-level no-op claim fails for a vmess inbound whose settings
      lack `clients`: removing any id adds an empty `clients` list. */
  lemma RemoveCreatesClientsKey()
    ensures var vm := Inbound(Some(VMESS), Some(Settings(None, map[])), map[]);
            var cfg := Config(Some([vm]), map[]);
            !HasVmessClient(cfg, "x")
            && RemoveUser(cfg, "x") == Success(Config(Some([vm.(settings := Some(Settings(Some([]), map[])))]), map[]))
            && RemoveUser(cfg, "x") != Success(cfg)
  {
    var vm := Inbound(Some(VMESS), Some(Settings(None, map[])), map[]);
    var cfg := Config(Some([vm]), map[]);
    assert ClientsOf(vm) == [];
    assert [vm][..0] == [];
    assert VmessClients(cfg) == VmessClientsOf([]) + ListedClients(vm) == [];
    assert !Unsettled(vm);
    var fixed := vm.(settings := Some(Settings(Some([]), map[])));
    assert FilterInbound(vm, "x") == fixed;
    assert FilterInbounds([vm], "x") == [fixed];
    assert fixed != vm;
  }

  /** In listing terms, remove_user filters the list of all vmess clients. */
  lemma {:induction false} RemoveFiltersListingOf(ibs: seq<Inbound>, u: string)
    requires forall j | 0 <= j < |ibs| :: !Unsettled(ibs[j])
    ensures VmessClientsOf(FilterInbounds(ibs, u)) == Without(VmessClientsOf(ibs), u)
    decreases |ibs|
  {
    if |ibs| > 0 {
      var n := |ibs|;
      var f := FilterInbounds(ibs, u);
      assert f[..n - 1] == FilterInbounds(ibs[..n - 1], u);
      RemoveFiltersListingOf(ibs[..n - 1], u);
      WithoutAppend(VmessClientsOf(ibs[..n - 1]), ListedClients(ibs[n - 1]), u);
      ListedAfterFilter(ibs[n - 1], u);
      assert VmessClientsOf(f) == VmessClientsOf(f[..n - 1]) + ListedClients(f[n - 1]);
    }
  }

  /** One inbound's contribution to the listing, filtered. */
  lemma ListedAfterFilter(ib: Inbound, u: string)
    requires !Unsettled(ib)
    ensures ListedClients(FilterInbound(ib, u)) == Without(ListedClients(ib), u)
  {
  }

  /** After a successful remove_user, the listing is the old listing with every client of id `u` dropped. */
  lemma RemoveFiltersListing(cfg: Config, u: string)
    requires RemoveUser(cfg, u).Success?
    ensures VmessClients(RemoveUser(cfg, u).value) == Without(VmessClients(cfg), u)
    ensures !HasVmessClient(RemoveUser(cfg, u).value, u)
  {
    RemoveFiltersListingOf(cfg.inbounds.value, u);
  }

  /* ---------------------------------------------------------------------- */
  /* Properties of add_user                                                  */

  /** In listing terms, add_user inserts the new client once, right after the
      existing clients of the first vmess inbound; no other listed client moves
      or changes, whether or not the id was already present. */
  lemma {:induction false} AddInsertsOneClient(cfg: Config, userId: string, email: string, alterId: int)
    requires AddUser(cfg, userId, email, alterId).Success?
    ensures exists a, b ::
      && VmessClients(cfg) == a + b
      && VmessClients(AddUser(cfg, userId, email, alterId).value) == a + [NewClient(userId, email, alterId)] + b
    ensures |VmessClients(AddUser(cfg, userId, email, alterId).value)| == |VmessClients(cfg)| + 1
  {
    var c := NewClient(userId, email, alterId);
    var ibs := InboundsOf(cfg);
    var k := FirstVmess(ibs).value;
    var after := ibs[k := AppendClient(ibs[k], c)];
    assert AddUser(cfg, userId, email, alterId).value.inbounds == Some(after);
    ListingAtFirstVmess(ibs, k);
    assert IsFirstVmess(after, k) by {
      assert forall j | 0 <= j < k :: after[j] == ibs[j];
    }
    ListingAtFirstVmess(after, k);
    assert after[k + 1..] == ibs[k + 1..];
    var a, b := ClientsOf(ibs[k]), VmessClientsOf(ibs[k + 1..]);
    assert ClientsOf(after[k]) == a + [c];
    assert VmessClients(cfg) == a + b;
    assert VmessClientsOf(after) == a + [c] + b;
  }

  /** The listing starts with the clients of the first vmess inbound. */
  lemma {:induction false} ListingAtFirstVmess(ibs: seq<Inbound>, k: nat)
    requires IsFirstVmess(ibs, k)
    ensures VmessClientsOf(ibs) == ClientsOf(ibs[k]) + VmessClientsOf(ibs[k + 1..])
  {
    VmessClientsSplit(ibs, k);
    var pre := ibs[..k];
    assert forall j | 0 <= j < k :: pre[j] == ibs[j];
    NoVmessNoClients(pre);
    assert ListedClients(ibs[k]) == ClientsOf(ibs[k]);
  }

  /** A list of inbounds none of which is vmess contributes no clients. */
  lemma {:induction false} NoVmessNoClients(ibs: seq<Inbound>)
    requires forall j | 0 <= j < |ibs| :: !IsVmess(ibs[j])
    ensures VmessClientsOf(ibs) == []
    decreases |ibs|
  {
    if |ibs| > 0 {
      NoVmessNoClients(ibs[..|ibs| - 1]);
    }
  }

  /** Filtering the inbound that received a fresh client by that client's id
      gives back the original client list, and the original inbound itself
      when it already had `settings` and `clients`. */
  lemma FilterUndoesAppend(before: Inbound, after: Inbound, c: Client, u: string)
    requires IsVmess(before)
    requires Appended(before, after, c)
    requires c.id == Some(u)
    requires forall x | x in ClientsOf(before) :: x.id != Some(u)
    ensures ClientsOf(FilterInbound(after, u)) == ClientsOf(before)
    ensures before.settings.Some? && before.settings.value.clients.Some? ==> FilterInbound(after, u) == before
  {
    WithoutAbsent(ClientsOf(before), u);
    WithoutAppend(ClientsOf(before), [c], u);
    assert Without([c], u) == [];
    assert ClientsOf(after) == ClientsOf(before) + [c];
  }

  /** Filtering an inbound none of whose clients has id `u` keeps its client
      list, and keeps the inbound itself when it has `settings` and `clients`. */
  lemma FilterKeepsFresh(ib: Inbound, u: string)
    requires !Unsettled(ib)
    requires IsVmess(ib) ==> forall x | x in ClientsOf(ib) :: x.id != Some(u)
    ensures ClientsOf(FilterInbound(ib, u)) == ClientsOf(ib)
    ensures IsVmess(ib) && ib.settings.value.clients.Some? ==> FilterInbound(ib, u) == ib
    ensures !IsVmess(ib) ==> FilterInbound(ib, u) == ib
  {
    if IsVmess(ib) {
      WithoutAbsent(ClientsOf(ib), u);
    }
  }

  /** After an add, no vmess inbound lacks `settings` when only the first one could have. */
  lemma AddedIsSettled(cfg: Config, userId: string, email: string, alterId: int)
    requires AddUser(cfg, userId, email, alterId).Success?
    requires forall j | 0 <= j < |InboundsOf(cfg)| ::
      IsVmess(InboundsOf(cfg)[j]) && !IsFirstVmess(InboundsOf(cfg), j) ==> InboundsOf(cfg)[j].settings.Some?
    ensures RemoveUser(AddUser(cfg, userId, email, alterId).value, userId).Success?
  {
    var added := AddUser(cfg, userId, email, alterId).value;
    assert Added(cfg, added, NewClient(userId, email, alterId));
    var mid := added.inbounds.value;
    assert forall j | 0 <= j < |mid| :: !Unsettled(mid[j]);
  }

  /** Add then remove, seen at the `i`-th inbound. */
  lemma AddThenRemoveAt(cfg: Config, userId: string, email: string, alterId: int, i: nat)
    requires AddUser(cfg, userId, email, alterId).Success?
    requires RemoveUser(AddUser(cfg, userId, email, alterId).value, userId).Success?
    requires !HasVmessClient(cfg, userId)
    requires i < |InboundsOf(cfg)|
    ensures var back := RemoveUser(AddUser(cfg, userId, email, alterId).value, userId).value;
            && ClientsOf(back.inbounds.value[i]) == ClientsOf(InboundsOf(cfg)[i])
            && (FullySettled(cfg) ==> back.inbounds.value[i] == InboundsOf(cfg)[i])
  {
    var c := NewClient(userId, email, alterId);
    var ibs := InboundsOf(cfg);
    var added := AddUser(cfg, userId, email, alterId).value;
    assert Added(cfg, added, c);
    var mid := added.inbounds.value;
    var back := RemoveUser(added, userId).value;
    assert back.inbounds.value[i] == FilterInbound(mid[i], userId);
    if IsVmess(ibs[i]) {
      ListedClientsIncluded(ibs, i);
    }
    if IsFirstVmess(ibs, i) {
      FilterUndoesAppend(ibs[i], mid[i], c, userId);
    } else {
      assert mid[i] == ibs[i];
      assert !Unsettled(mid[i]);
      FilterKeepsFresh(ibs[i], userId);
    }
  }

  /** Adding a fresh id and then removing it gives every inbound back its
      original client list; when every vmess inbound already had `settings`
      and `clients`, the document comes back exactly. */
  lemma AddThenRemove(cfg: Config, userId: string, email: string, alterId: int)
    requires AddUser(cfg, userId, email, alterId).Success?
    requires !HasVmessClient(cfg, userId)
    requires forall j | 0 <= j < |InboundsOf(cfg)| ::
      IsVmess(InboundsOf(cfg)[j]) && !IsFirstVmess(InboundsOf(cfg), j) ==> InboundsOf(cfg)[j].settings.Some?
    ensures RemoveUser(AddUser(cfg, userId, email, alterId).value, userId).Success?
    ensures var back := RemoveUser(AddUser(cfg, userId, email, alterId).value, userId).value;
            && back.extra == cfg.extra
            && |back.inbounds.value| == |InboundsOf(cfg)|
            && forall i | 0 <= i < |InboundsOf(cfg)| :: ClientsOf(back.inbounds.value[i]) == ClientsOf(InboundsOf(cfg)[i])
    ensures FullySettled(cfg) ==> RemoveUser(AddUser(cfg, userId, email, alterId).value, userId) == Success(cfg)
  {
    AddedIsSettled(cfg, userId, email, alterId);
    var ibs := InboundsOf(cfg);
    var added := AddUser(cfg, userId, email, alterId).value;
    assert Added(cfg, added, NewClient(userId, email, alterId));
    var back := RemoveUser(added, userId).value;
    forall i | 0 <= i < |ibs|
      ensures ClientsOf(back.inbounds.value[i]) == ClientsOf(ibs[i])
      ensures FullySettled(cfg) ==> back.inbounds.value[i] == ibs[i]
    {
      AddThenRemoveAt(cfg, userId, email, alterId, i);
    }
    if FullySettled(cfg) {
      assert back.inbounds.value == ibs;
      assert cfg.inbounds == Some(ibs);
    }
  }
}
