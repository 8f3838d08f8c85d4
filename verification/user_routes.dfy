/** The user routes of backend/routes/users.py: listing the users found in the
    stored configuration document (a read), and the create and delete
    workflows (a read, one edit, and a write of the whole document back).
    The store is an abstract value; the fresh uuid and the clock readings are
    parameters. */
module UserRoutes {
  import opened Results
  import opened ConfigTree
  import opened ConfigEdit

  /** The `User` response model. `id` is copied from the client record as it is. */
  datatype UserView = UserView(id: Option<string>, name: string, alterId: int, createdAt: string)

  /** The `UserCreate` request model. */
  datatype UserCreate = UserCreate(name: string, alterId: int)

  /** Building a `UserCreate` from a request body whose `alter_id` may be missing (line 20). */
  function UserCreateOf(name: string, alterId: Option<int>): (r: UserCreate)
    ensures r.name == name
    ensures alterId.None? ==> r.alterId == DEFAULT_ALTER_ID
    ensures alterId.Some? ==> r.alterId == alterId.value
  {
    UserCreate(name, alterId.GetOr(DEFAULT_ALTER_ID))
  }

  /** What a route hands back: a body, or an HTTP 500 whose detail is the exception's text. */
  datatype Response<T> = Ok(body: T) | ServerError(detail: string)

  /* ---------------------------------------------------------------------- */
  /* The configuration store                                                 */

  /** What the configuration file holds: nothing, text that is not JSON, a
      document, or something `open` or the decoder refuses for another reason
      (permissions, a directory, bytes that are not UTF-8), whose exception
      text is `reason`. */
  datatype FileState = Absent | Garbled | Unreadable(reason: string) | Holds(doc: Config)

  /** Why a write fails: `open` refuses the file (permissions, a missing
      directory), which leaves it as it was; or the dump fails after `open`
      has emptied the file (a full disk, also when the buffer is flushed at
      close), which leaves an empty or cut-off JSON text that no longer parses. */
  datatype WriteFault = OpenFails(reason: string) | DumpFails(reason: string)

  /** The file at `path`; `writeFault` is how a write fails, `None` when writes succeed. */
  datatype Store = Store(path: string, file: FileState, writeFault: Option<WriteFault>)

  /** What a write leaves: the store afterwards, and the exception text if it raised. */
  datatype Written = Written(store: Store, error: Option<string>)

  /** read_config */
  function ReadConfig(s: Store): (r: Result<Config, string>)
    ensures r.Success? <==> s.file.Holds?
    ensures r.Success? ==> r.value == s.file.doc
  {
    match s.file
    case Absent => Failure("Config file not found at " + s.path)
    case Garbled => Failure("Invalid JSON in config file")
    case Unreadable(reason) => Failure(reason)
    case Holds(doc) => Success(doc)
  }

  /** write_config: the whole document replaces the file's content. A dump that
      fails after the file was opened leaves text that is not JSON. */
  function WriteConfig(s: Store, doc: Config): (r: Written)
    ensures r.error.None? <==> s.writeFault.None?
    ensures r.error.None? ==> r.store == s.(file := Holds(doc))
    ensures s.writeFault.Some? && s.writeFault.value.OpenFails? ==> r.store == s
    ensures s.writeFault.Some? && s.writeFault.value.DumpFails? ==> r.store == s.(file := Garbled)
  {
    match s.writeFault
    case None => Written(s.(file := Holds(doc)), None)
    case Some(OpenFails(reason)) => Written(s, Some("Failed to write config: " + reason))
    case Some(DumpFails(reason)) => Written(s.(file := Garbled), Some("Failed to write config: " + reason))
  }

  /** The write of this store empties the file before it fails. */
  predicate DumpFaulty(s: Store) {
    s.writeFault.Some? && s.writeFault.value.DumpFails?
  }

  /* ---------------------------------------------------------------------- */
  /* GET /users                                                              */

  /** The view of one client record, stamped with one clock reading. */
  function ViewOf(c: Client, createdAt: string): UserView {
    UserView(c.id, c.email.GetOr(UNKNOWN), c.alterId.GetOr(DEFAULT_ALTER_ID), createdAt)
  }

  /** get_users: read the document and list its users; a failed read is an
      HTTP 500 carrying the read's message. */
  method ListUsers(store: Store, clock: nat -> string) returns (resp: Response<seq<UserView>>)
    ensures resp.Ok? <==> store.file.Holds?
    ensures resp.ServerError? ==> resp.detail == ReadConfig(store).error
    ensures resp.Ok? ==>
      && |resp.body| == |VmessClients(store.file.doc)|
      && forall k | 0 <= k < |resp.body| ::
        resp.body[k] == ViewOf(VmessClients(store.file.doc)[k], clock(k))
  {
    var read := ReadConfig(store);
    if read.Failure? {
      return ServerError(read.error);
    }
    var users := GetUsers(read.value, clock);
    resp := Ok(users);
  }

  /** get_users after the read: one view per client of every vmess inbound, in
      document order. `clock(k)` is what the `k`-th call of `datetime.now()`
      made while building the list returns. */
  method GetUsers(cfg: Config, clock: nat -> string) returns (users: seq<UserView>)
    ensures |users| == |VmessClients(cfg)|
    ensures forall k | 0 <= k < |users| ::
      && users[k].id == VmessClients(cfg)[k].id
      && users[k].name == VmessClients(cfg)[k].email.GetOr(UNKNOWN)
      && users[k].alterId == VmessClients(cfg)[k].alterId.GetOr(DEFAULT_ALTER_ID)
      && users[k].createdAt == clock(k)
    ensures cfg.inbounds.None? ==> users == []
  {
    users := [];
    if cfg.inbounds.None? {
      return;
    }
    var ibs := cfg.inbounds.value;
    var i := 0;
    while i < |ibs|
      invariant 0 <= i <= |ibs|
      invariant |users| == |VmessClientsOf(ibs[..i])|
      invariant forall k | 0 <= k < |users| :: users[k] == ViewOf(VmessClientsOf(ibs[..i])[k], clock(k))
    {
      ghost var before := VmessClientsOf(ibs[..i]);
      assert ibs[..i + 1][..i] == ibs[..i];
      assert VmessClientsOf(ibs[..i + 1]) == before + ListedClients(ibs[i]);
      if IsVmess(ibs[i]) {
        var clients := ClientsOf(ibs[i]);
        var j := 0;
        while j < |clients|
          invariant 0 <= j <= |clients|
          invariant |users| == |before| + j
          invariant forall k | 0 <= k < |users| :: users[k] == ViewOf((before + clients[..j])[k], clock(k))
        {
          users := users + [ViewOf(clients[j], clock(|users|))];
          assert (before + clients[..j + 1]) == (before + clients[..j]) + [clients[j]];
          j := j + 1;
        }
        assert clients[..j] == clients;
      }
      i := i + 1;
    }
    assert ibs[..i] == ibs;
  }

  /* ---------------------------------------------------------------------- */
  /* POST /users                                                             */

  /** create_user: read, append the new client, write, and echo the request
      with the uuid drawn for it (`newId`) and the clock reading `now`. A failed
      read or edit writes nothing; a failed write leaves the file as it was
      when `open` refused it, and garbled when the dump failed. */
  method CreateUser(store: Store, req: UserCreate, newId: string, now: string)
    returns (store': Store, resp: Response<UserView>)
    ensures resp.Ok? <==>
      && store.file.Holds?
      && AddUser(store.file.doc, newId, req.name, req.alterId).Success?
      && store.writeFault.None?
    ensures resp.Ok? ==> resp.body == UserView(Some(newId), req.name, req.alterId, now)
    ensures resp.Ok? ==>
      && store'.path == store.path && store'.writeFault == store.writeFault
      && store'.file.Holds?
      && Added(store.file.doc, store'.file.doc, NewClient(newId, req.name, req.alterId))
    ensures resp.Ok? ==> exists a, b ::
      && VmessClients(store.file.doc) == a + b
      && VmessClients(store'.file.doc) == a + [NewClient(newId, req.name, req.alterId)] + b
    ensures store.file.Holds? && AddUser(store.file.doc, newId, req.name, req.alterId).Success? && DumpFaulty(store)
            ==> resp.ServerError? && store' == store.(file := Garbled)
    ensures resp.ServerError? && !DumpFaulty(store) ==> store' == store
    ensures resp.ServerError? ==> store'.path == store.path && store'.writeFault == store.writeFault
    ensures store.file.Holds? && (forall j | 0 <= j < |InboundsOf(store.file.doc)| :: !IsVmess(InboundsOf(store.file.doc)[j]))
            ==> resp == ServerError("No VMess inbound found in config")
  {
    var read := ReadConfig(store);
    if read.Failure? {
      return store, ServerError(read.error);
    }
    var doc := read.value;
    var edited := AddUser(doc, newId, req.name, req.alterId);
    if edited.Failure? {
      return store, ServerError(Message(edited.error));
    }
    var written := WriteConfig(store, edited.value);
    if written.error.Some? {
      return written.store, ServerError(written.error.value);
    }
    AddInsertsOneClient(doc, newId, req.name, req.alterId);
    store' := written.store;
    resp := Ok(UserView(Some(newId), req.name, req.alterId, now));
  }

  /* ---------------------------------------------------------------------- */
  /* DELETE /users/{user_id}                                                 */

  const DELETED: string := "User deleted successfully"

  /** delete_user: read, drop every client with id `userId`, write, and report
      success, whether or not the id was there. */
  method DeleteUser(store: Store, userId: string) returns (store': Store, resp: Response<string>)
    ensures resp.Ok? <==>
      && store.file.Holds?
      && RemoveUser(store.file.doc, userId).Success?
      && store.writeFault.None?
    ensures resp.Ok? ==>
      && resp.body == DELETED
      && store'.path == store.path && store'.writeFault == store.writeFault
      && store'.file.Holds?
      && Removed(store.file.doc, store'.file.doc, userId)
      && VmessClients(store'.file.doc) == Without(VmessClients(store.file.doc), userId)
      && !HasVmessClient(store'.file.doc, userId)
    ensures resp.Ok? && FullySettled(store.file.doc) && !HasVmessClient(store.file.doc, userId)
            ==> store' == store
    ensures store.file.Holds? && RemoveUser(store.file.doc, userId).Success? && DumpFaulty(store)
            ==> resp.ServerError? && store' == store.(file := Garbled)
    ensures resp.ServerError? && !DumpFaulty(store) ==> store' == store
    ensures resp.ServerError? ==> store'.path == store.path && store'.writeFault == store.writeFault
    ensures store.file.Holds? && store.file.doc.inbounds.None? ==> resp == ServerError("No inbounds in config")
  {
    var read := ReadConfig(store);
    if read.Failure? {
      return store, ServerError(read.error);
    }
    var doc := read.value;
    var edited := RemoveUser(doc, userId);
    if edited.Failure? {
      return store, ServerError(Message(edited.error));
    }
    var written := WriteConfig(store, edited.value);
    if written.error.Some? {
      return written.store, ServerError(written.error.value);
    }
    RemoveFiltersListing(doc, userId);
    if FullySettled(doc) && !HasVmessClient(doc, userId) {
      RemoveAbsentIsIdentity(doc, userId);
    }
    store' := written.store;
    resp := Ok(DELETED);
  }
}
