# v2ray-manager user core in Dafny

This project models the part of v2ray-manager that manages proxy users. It covers:

- **Config edits.** Adding a vmess client to the proxy's JSON configuration
  document and removing one from it (`add_user` and `remove_user`).
- **Live control.** The helpers that drive the proxy's `api` command-line tool
  through `docker exec`: building the command lines, mapping exit codes to
  success flags, and reading traffic counters out of the tool's text output.
- **User routes.** Listing users (a read of the stored document), and
  creating or deleting a user (a read, one edit and a write back).
- **Share link.** The `vmess://` link handed to clients: the fixed JSON object,
  its `json.dumps` text, UTF-8, base 64 (section 4 of RFC 4648), and the lookup
  that picks the name and alter id shown in it.

Each concern is one module:

| module | file | concern |
|---|---|---|
| `Results` | results.dfy | `Option` and `Result` |
| `ConfigTree` | config_tree.dfy | the document: inbounds, settings, clients; the listing of all vmess clients |
| `ConfigEdit` | config_edit.dfy | `add_user` and `remove_user` as pure functions with their error cases |
| `PyText` | py_text.dfy | the Python string behaviour the core relies on: `strip`, `split`, `find`, `split(sep)[1]`, `int()`, `str(int)` |
| `ControlApi` | control_api.dfy | the command lines, the success flags, `parse_stats`, `get_user_stats` |
| `UserRoutes` | user_routes.dfy | `get_users`, `create_user`, `delete_user` over an abstract store |
| `Bytes` | bytes.dfy | bytes, ASCII, `str.encode()` |
| `JsonText` | json_text.dfy | `json.dumps` of a flat string object, with a reader for the text |
| `Base64` | base64.dfy | `base64.b64encode`, with a strict decoder |
| `ShareLink` | share_link.dfy | `generate_vmess_url` and the client lookup of `generate_qrcode` |

## How the model is set up

- **The document** is a typed tree. Only the keys the code reads or writes are
  named: `inbounds`, `protocol`, `settings`, `clients`, `id`, `email` and
  `alterId`. Each of them may be absent (`Option`). Every other member of each
  object is kept in an uninterpreted `extra` map, so the contracts can say that
  an edit leaves it alone. An `extra` map never holds one of the named keys:
  a parsed JSON object has each key once, and a named key lives in its field.
  A number in an uninterpreted member keeps its JSON text, so fractions and
  exponents are held as written.
- **The edits** return the edited document or the exception the code raises.
  The error text is kept, because the routes return it as the HTTP 500 detail.
- **Running a command** is an oracle, `Runner = seq<string> -> RunOutcome`. It
  gives an exit code with the captured stdout, or reports that the call raised.
- **The config file** is a `Store`. It is absent, holds text that is not JSON,
  cannot be read for another reason (its exception text is kept), or holds a
  document. Its `writeFault` says how a write fails, if it does: `open`
  refuses the file, which stays as it was, or the dump fails after `open`
  has emptied the file, which then holds text that is not JSON.
- **Inputs from outside:**
  - The fresh uuid of `create_user` is a parameter.
  - The clock is a parameter: `get_users` reads `datetime.now()` once per
    listed user, modelled as `clock(k)` for the k-th user.
  - The `DOMAIN` and `PORT` environment variables are the `Endpoint` parameter.

## Model

Two facts about the code shape the edit contracts:

- Removing an id that no client has can still change the document.
  `remove_user` writes `inbound["settings"]["clients"]` on every vmess
  inbound, so one whose settings lack `clients` gains `clients: []`, and one
  without `settings` raises `KeyError`. `ConfigEdit.RemoveCreatesClientsKey`
  exhibits such a document; `ConfigEdit.RemoveAbsentIsIdentity` proves the
  no-op under the condition that makes it hold.
- `remove_user` filters every vmess inbound, while `add_user` appends to the
  first vmess inbound only.

| member | source | states |
|---|---|---|
| ConfigEdit.FirstVmess | backend/utils/v2ray_config.py:29-33 | the search finds the first inbound whose protocol is "vmess", and finds nothing exactly when no inbound is vmess |
| ConfigEdit.AppendClient | backend/utils/v2ray_config.py:38-47 | `settings` and `clients` are created empty when missing; the new record is appended after the existing clients; protocol and every other member are untouched |
| ConfigEdit.AddUser | backend/utils/v2ray_config.py:24-49 | add fails, with "No VMess inbound found in config", exactly when no inbound is vmess; otherwise only the first vmess inbound changes, gaining the record `{id, alterId, email}`; there is no duplicate check |
| ConfigEdit.AddInsertsOneClient | backend/utils/v2ray_config.py:29-47 | in the listing of all vmess clients, add inserts exactly one new record, and every other client keeps its place; the listing grows by one |
| ConfigEdit.Without | backend/utils/v2ray_config.py:59-61 | a client survives the filter exactly when its id is not the removed id; a client without an id survives |
| ConfigEdit.WithoutAppend | backend/utils/v2ray_config.py:59-61 | the filter keeps the survivors in their original order |
| ConfigEdit.RemoveUser | backend/utils/v2ray_config.py:51-63 | remove fails with "No inbounds in config" when `inbounds` is missing, and with KeyError 'settings' when a vmess inbound has no settings; otherwise every vmess inbound's clients are filtered and nothing else changes |
| ConfigEdit.RemoveIdempotent | backend/utils/v2ray_config.py:51-63 | removing the same id a second time changes nothing |
| ConfigEdit.RemoveFiltersListing | backend/utils/v2ray_config.py:56-61 | after remove, the listing of vmess clients is the old listing minus the clients with that id, and no vmess client has that id |
| ConfigEdit.RemoveAbsentIsIdentity | backend/utils/v2ray_config.py:56-61 | removing an id no vmess client has returns the document unchanged, when every vmess inbound already has a `clients` list |
| ConfigEdit.RemoveCreatesClientsKey | backend/utils/v2ray_config.py:57-61 | a vmess inbound whose settings lack `clients` gains an empty list, even though the id is absent |
| ConfigEdit.AddThenRemove | backend/utils/v2ray_config.py:24-63 | adding a fresh id and then removing it restores every inbound's client list; it restores the whole document when every vmess inbound had `settings` and `clients` |
| UserRoutes.UserCreateOf | backend/routes/users.py:18-20 | a create request without `alter_id` gets 64 |
| UserRoutes.ReadConfig | backend/utils/v2ray_config.py:6-14 | reading succeeds exactly when the file holds a document, and then yields that document |
| UserRoutes.WriteConfig | backend/utils/v2ray_config.py:16-22 | writing succeeds exactly when the store has no write fault, and then the file holds the new document; when `open` refuses, the file is as it was; when the dump fails after `open` emptied the file, it holds text that is not JSON |
| UserRoutes.ListUsers | backend/routes/users.py:22-43 | listing succeeds exactly when the file holds a document; a failed read is a 500 with the read's message; otherwise one view per listed vmess client, each the client's view stamped with the k-th clock reading |
| UserRoutes.GetUsers | backend/routes/users.py:27-41 | one view per client of every vmess inbound, in document order; the name defaults to "Unknown", the alter id to 64; the k-th view carries the k-th clock reading; no `inbounds` gives no users |
| UserRoutes.CreateUser | backend/routes/users.py:45-62 | create succeeds exactly when the read, the add and the write all do. It then echoes the request with the drawn id and stores the document with the new record inserted in the listing. A failed read, add or `open` leaves the store unchanged; a dump that fails leaves the file garbled. No vmess inbound gives the add error |
| UserRoutes.DeleteUser | backend/routes/users.py:64-74 | delete succeeds exactly when the read, the remove and the write all do, whether or not the id was present. On success no vmess client has the id. An absent id leaves a settled store unchanged. A failed read, remove or `open` leaves the store unchanged; a dump that fails leaves the file garbled |
| ControlApi.AddCommandFlags | backend/utils/v2ray_api.py:7-15 | the add command carries `--tag`, `--email`, `--uuid` and `--alterid` at positions 8 to 11, in that order. Each value reads back unchanged, and the alter id reads back as the same number |
| ControlApi.RemoveCommandFlags | backend/utils/v2ray_api.py:25-31 | the remove command names the user by tag and email only; it carries no uuid and no alter id |
| ControlApi.PatternRoundTrip | backend/utils/v2ray_api.py:46 | the counter name `user>>>EMAIL>>>traffic>>>DIR` gives back the email it was built from |
| ControlApi.QueryCommandPattern | backend/utils/v2ray_api.py:42-56 | each query command asks for the counter of the given user and direction |
| ControlApi.ResetCommandPatterns | backend/utils/v2ray_api.py:84-91 | the reset command is `--reset` followed by the uplink and then the downlink counter name of the same user |
| ControlApi.SuccessFlag | backend/utils/v2ray_api.py:16-20 | a run is successful exactly when it exited with status 0; a call that raised is a failure |
| ControlApi.AddUserViaApi | backend/utils/v2ray_api.py:4-20 | add returns true exactly when the add command exited with status 0 |
| ControlApi.RemoveUserViaApi | backend/utils/v2ray_api.py:22-36 | remove returns true exactly when the remove command exited with status 0 |
| ControlApi.ResetUserStats | backend/utils/v2ray_api.py:81-96 | reset returns true exactly when the reset command exited with status 0 |
| ControlApi.ParseStats | backend/utils/v2ray_api.py:71-79 | for any output: 0 when no line holds `value:`; otherwise the text after the first marker of the first line holding it, up to the next marker, stripped and read as an integer, or 0 when that is no integer |
| ControlApi.ParseStatsNoMarker | backend/utils/v2ray_api.py:71-79 | output with no `value:` on any line reads as 0 |
| ControlApi.FirstMarkedSkips | backend/utils/v2ray_api.py:74-75 | lines without the marker are skipped |
| ControlApi.ParseStatsFirstMarked | backend/utils/v2ray_api.py:73-78 | of any lines without newlines, the first one holding `value:` decides the result, whatever the lines after it hold |
| ControlApi.ParseStatsReadsFirstMarker | backend/utils/v2ray_api.py:73-76 | whenever the first marked line's value reads as n, the result is n, whatever later lines hold |
| ControlApi.BadFirstValueReadsZero | backend/utils/v2ray_api.py:73-78 | whenever the first marked line's value is no integer, the result is 0, even when a later line holds a good value |
| ControlApi.ValueLineReads | backend/utils/v2ray_api.py:74-76 | a line of the form `  value: N` reads as N |
| ControlApi.GetUserStats | backend/utils/v2ray_api.py:38-69 | total is uplink plus downlink; if either query raises, all three are 0; otherwise each counter is parsed from its own query's output |
| ControlApi.GetUserStatsReadsCounters | backend/utils/v2ray_api.py:59-66 | when both queries' outputs have a line holding `value:`, the stats are what the first such line of each reads as (0 for one that is no integer) and their sum, whatever the exit status |
| PyText.Strip | backend/utils/v2ray_api.py:76 | the result has no whitespace at either end and is a substring between whitespace-only ends |
| PyText.Split | backend/utils/v2ray_api.py:74 | the pieces hold no separator, there is at least one, and joined with the separator they give back the input |
| PyText.SplitJoin | backend/utils/v2ray_api.py:74 | splitting lines joined by newlines gives back those lines, when no line holds a newline |
| PyText.Find | backend/utils/v2ray_api.py:75 | `pat in s`: the first position where the text occurs, none before it, and none at all when it is not found |
| PyText.PieceAfter | backend/utils/v2ray_api.py:76 | `s.split(sep)[1]`: the text right after the first separator, ending at the next separator or the end, holding no separator |
| PyText.ParseShow | backend/utils/qrcode_gen.py:18 | `int(str(n)) == n`, for the alter id written into command flags and links |
| JsonText.Escape | backend/utils/qrcode_gen.py:26 | printable ASCII other than the quote and backslash stands for itself; every other character becomes an escape; the output is ASCII |
| JsonText.ReadQuoted | backend/utils/qrcode_gen.py:26 | a string written as a JSON literal reads back as the same string, whatever follows it |
| JsonText.DumpObject | backend/utils/qrcode_gen.py:26 | the JSON text of the object is pure ASCII and braced |
| JsonText.ReadDumpedObject | backend/utils/qrcode_gen.py:26 | the JSON text reads back as the same members in the same order |
| Bytes.AsciiUtf8 | backend/utils/qrcode_gen.py:27 | a string is recovered from its UTF-8 bytes read as ASCII exactly when it is ASCII |
| Base64.Encode | backend/utils/qrcode_gen.py:27 | the encoding has four characters for every started group of three bytes, and is ASCII |
| Base64.DecodeEncode | backend/utils/qrcode_gen.py:27 | decoding the encoding gives back every byte string |
| ShareLink.EndpointOf | backend/utils/qrcode_gen.py:7-8 | domain and port come from the environment, defaulting to "management.hamnaghsheh.ir" and "8443" |
| ShareLink.LinkFields | backend/utils/qrcode_gen.py:12-24 | the link object has the keys v, ps, add, port, id, aid, net, type, host, path, tls, in that order |
| ShareLink.VmessUrl | backend/utils/qrcode_gen.py:10-28 | the link starts with `vmess://` and is ASCII |
| ShareLink.DecodeVmessUrlBack | backend/utils/qrcode_gen.py:10-28 | decoding a link gives back exactly the object it was built from |
| ShareLink.LinkCarries | backend/utils/qrcode_gen.py:12-24 | a decoded link has v "2", ps the email, add and port the endpoint, id the user id, aid the alter id as a number, net "tcp", type "none", empty host and path, tls "tls" |
| ShareLink.FirstMatch | backend/utils/qrcode_gen.py:39-43 | within one inbound, the first client with the id is taken |
| ShareLink.ChosenNone | backend/utils/qrcode_gen.py:35-43 | no client is chosen exactly when no vmess inbound lists the id |
| ShareLink.ChosenIsLastMatch | backend/utils/qrcode_gen.py:35-43 | the chosen client is the match of a vmess inbound after which no vmess inbound has one, so a later match overrides an earlier one |
| ShareLink.ChosenIffListed | backend/utils/qrcode_gen.py:35-43 | a client is chosen exactly when the listing of vmess clients has one with the id, and the chosen one is such a client |
| ShareLink.LookupClient | backend/utils/qrcode_gen.py:32-43 | the loop yields the chosen client's email and alter id, each with its default, and "Unknown" and 64 when no vmess client has the id |
| ShareLink.ShareUrl | backend/utils/qrcode_gen.py:32-45 | the text put in the QR image is the link built from the looked-up name and alter id, and it decodes to the requested user id |

## Left out

- **File I/O and JSON (de)serialisation of the config file** (`json.load`,
  `json.dump` with `indent=2`). The store holds the parsed document. A write
  whose dump fails is modelled by the file holding text that is not JSON
  (an empty file or a cut-off dump); which prefix was written is not kept.
- **`V2RAY_CONFIG_PATH`.** The store's path stands for it and may be any
  path; the default `/etc/v2ray/config.json` belongs to
  backend/utils/v2ray_config.py line 4 and is not part of this model.
- **Running `docker` and the proxy's `api` tool.** The oracle stands for both.
  The diagnostic `print` calls in the helpers are output only.
- **Drawing the QR code** (`qrcode`, PNG, and the base 64 of the image,
  qrcode_gen.py lines 47-57). These are foreign library calls.
- **The uuid generator and the clock.** Both are parameters.
- **A JSON document whose root is not an object.** The store holds an
  object-shaped document. With a list root that has no element "inbounds",
  or a string root that does not contain "inbounds", the `"inbounds" in
  config` tests fail: `get_users` lists no users, `remove_user` raises "No
  inbounds in config" (a 500 from delete), and `add_user` raises `TypeError`
  at its item assignment. A list or string root that passes the test makes
  `config["inbounds"]` raise `TypeError` in every route, and so does a
  number, boolean or null root.
- **In-place mutation on the failure paths of the edits.** `add_user` inserts
  `inbounds: []` before it raises for a document with no `inbounds` key, and
  `remove_user` has already filtered the earlier vmess inbounds when a later
  one raises `KeyError`. The model returns the failure without a partly
  edited document; no route writes after a failed edit, so the routes'
  results are the same.
- **JSON values of unexpected types at the modelled keys.** Examples are a
  numeric `email`, a string `alterId` and a `settings` that is not an object.
  The typed tree gives these keys one type each. The `extra` maps hold other
  keys.
- **Response validation by the web framework.** A listed client without an
  `id` would fail the `User` response model; the model returns the view with
  the missing id as it is.
- **Concurrency.** Two requests racing on the config file can lose an update;
  each request is modelled on its own.
- **Other files:** backend/routes/stats.py, backend/routes/config.py,
  backend/utils/system_stats.py, backend/main.py and the frontend. None of
  them is part of this model.
- PyText.ParseShow: has no size limit. CPython 3.11 and later (and the 3.7 to
  3.10 security releases) refuse to convert integers of more than 4300 digits
  between text and `int`. For such an alter id `str()` in the share link and
  the f-string of the add command raise (a 500, and `False` without running
  the command), and `int()` in parse_stats gives 0; the model converts them.
- PyText.ParseInt: reads ASCII digits only. Python's `int()` also accepts other
  Unicode decimal digits; the model reads them as a failure, which only
  matters for a stats output holding such digits.
- JsonText.ReadObject: reads exactly the text `json.dumps` writes, with no
  free whitespace. It is the partner of the writer, not a model of
  `json.loads`.
- JsonText.ReadUnicode: refuses a `\u` escape of an unpaired surrogate. Python
  would produce a lone surrogate, which a Dafny `char` cannot hold; the writer
  never produces one.
- Base64.Decode: is strict. `base64.b64decode` skips characters outside the
  alphabet, which the encoder never writes.
