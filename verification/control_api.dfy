/** The live-control helpers of backend/utils/v2ray_api.py: the command lines
    they build for the proxy's `api` tool, the mapping from the tool's exit
    status to a success flag, and the extraction of a traffic counter from the
    tool's text output. Running the command is an oracle `run` that returns
    the exit code and captured stdout, or reports that the call itself raised. */
module ControlApi {
  import opened Results
  import opened PyText
  import opened ConfigTree

  const CONTAINER: string := "v2ray"
  const BINARY: string := "/usr/bin/v2ray"
  /** Where the proxy's API listens. */
  const SERVER_ADDRESS: string := "127.0.0.1:10085"
  const DEFAULT_TAG: string := "proxy"
  /** The marker in front of a counter in the stats tool's output. */
  const MARKER: string := "value:"
  const UPLINK: string := "uplink"
  const DOWNLINK: string := "downlink"

  /** What `subprocess.run(cmd, capture_output=True, text=True)` gives back. */
  datatype RunOutcome = Exited(code: int, stdout: string) | Raised

  /** The process-running oracle. */
  type Runner = seq<string> -> RunOutcome

  /* ---------------------------------------------------------------------- */
  /* Command lines                                                           */

  /** `docker exec v2ray /usr/bin/v2ray api <sub...>` */
  function ApiCommand(sub: seq<string>): seq<string> {
    ["docker", "exec", CONTAINER, BINARY, "api"] + sub
  }

  /** `"--" + name + "=" + value`, the shape of every flag the helpers pass. */
  function Flag(name: string, value: string): string {
    "--" + name + "=" + value
  }

  /** `--server=127.0.0.1:10085`, the first flag of every command. */
  const SERVER_FLAG: string := Flag("server", SERVER_ADDRESS)

  /** Lines 7-15: the add-user command. */
  function AddUserCommand(userId: string, email: string, alterId: int, tag: string): seq<string> {
    ApiCommand(["adi", "inbound.user", SERVER_FLAG,
                Flag("tag", tag), Flag("email", email), Flag("uuid", userId), Flag("alterid", Show(alterId))])
  }

  /** Lines 25-31: the remove-user command. */
  function RemoveUserCommand(email: string, tag: string): seq<string> {
    ApiCommand(["rmi", "inbound.user", SERVER_FLAG, Flag("tag", tag), Flag("email", email)])
  }

  /** The stats counter name of one direction of one user's traffic. */
  function TrafficPattern(email: string, direction: string): string {
    "user>>>" + email + ">>>traffic>>>" + direction
  }

  /** Lines 42-47 and 51-56: the query command for one direction. */
  function QueryCommand(email: string, direction: string): seq<string> {
    ApiCommand(["statsquery", SERVER_FLAG, Flag("pattern", TrafficPattern(email, direction))])
  }

  /** Lines 84-91: the reset command, naming both counters of one user. */
  function ResetCommand(email: string): seq<string> {
    ApiCommand(["stats", SERVER_FLAG, "--reset", TrafficPattern(email, UPLINK), TrafficPattern(email, DOWNLINK)])
  }

  /* Reading command lines back: the partner of the builders above. */

  /** The position of the first argument of the form `--name=...`. */
  function FlagIndex(argv: seq<string>, name: string): (r: Option<nat>)
    ensures r.Some? ==> r.value < |argv| && OccursAt(argv[r.value], "--" + name + "=", 0)
    ensures r.Some? ==> forall j | 0 <= j < r.value :: !OccursAt(argv[j], "--" + name + "=", 0)
    ensures r.None? ==> forall j | 0 <= j < |argv| :: !OccursAt(argv[j], "--" + name + "=", 0)
    decreases |argv|
  {
    if |argv| == 0 then None
    else if OccursAt(argv[0], "--" + name + "=", 0) then Some(0)
    else match FlagIndex(argv[1..], name)
      case None => None
      case Some(k) => Some(k + 1)
  }

  /** The value of the first argument of the form `--name=value`. */
  function FlagValue(argv: seq<string>, name: string): Option<string> {
    match FlagIndex(argv, name)
    case None => None
    case Some(k) => Some(argv[k][|name| + 3..])
  }

  /** The user named by a traffic counter of the given direction, if it is one. */
  function PatternUser(p: string, direction: string): Option<string> {
    var pre, post := "user>>>", ">>>traffic>>>" + direction;
    if |pre| + |post| <= |p| && p[..|pre|] == pre && p[|p| - |post|..] == post
    then Some(p[|pre|..|p| - |post|])
    else None
  }

  /** An argument not starting with `-` is no flag at all. */
  predicate Plain(a: string) {
    |a| == 0 || a[0] != '-'
  }

  lemma PlainIsNoFlag(name: string, a: string)
    requires Plain(a)
    ensures !OccursAt(a, "--" + name + "=", 0)
  {
    var p := "--" + name + "=";
    if |p| <= |a| {
      assert a[0..|p|][0] == a[0];
    }
  }

  /** A flag never starts with the prefix of a flag whose name begins differently. */
  lemma OtherFlag(a: string, b: string, v: string)
    requires |a| > 0 && |b| > 0 && a[0] != b[0]
    ensures !OccursAt(Flag(b, v), "--" + a + "=", 0)
  {
    var p := "--" + a + "=";
    assert p[2] == a[0];
    assert Flag(b, v)[2] == b[0];
    if |p| <= |Flag(b, v)| {
      assert Flag(b, v)[0..|p|][2] == b[0];
    }
  }

  /** A flag has its own prefix, and its value follows it. */
  lemma OwnFlag(a: string, v: string)
    ensures OccursAt(Flag(a, v), "--" + a + "=", 0)
    ensures Flag(a, v)[|a| + 3..] == v
  {
  }

  /** Arguments that are not the flag asked for shift its position and keep its value. */
  lemma {:induction false} FlagAfter(head: seq<string>, tail: seq<string>, name: string)
    requires forall a | a in head :: !OccursAt(a, "--" + name + "=", 0)
    ensures FlagIndex(head + tail, name) ==
      (match FlagIndex(tail, name) case None => None case Some(k) => Some(k + |head|))
    ensures FlagValue(head + tail, name) == FlagValue(tail, name)
    decreases |head|
  {
    if |head| == 0 {
      assert head + tail == tail;
    } else {
      assert head[0] in head;
      assert (head + tail)[1..] == head[1..] + tail;
      assert forall a | a in head[1..] :: a in head;
      FlagAfter(head[1..], tail, name);
      assert (head + tail)[0] == head[0];
    }
  }

  /** The first argument of the form `--name=...` decides the flag's position and value. */
  lemma FlagAt(head: seq<string>, f: string, tail: seq<string>, name: string)
    requires forall a | a in head :: !OccursAt(a, "--" + name + "=", 0)
    requires OccursAt(f, "--" + name + "=", 0)
    ensures FlagIndex(head + [f] + tail, name) == Some(|head|)
    ensures FlagValue(head + [f] + tail, name) == Some(f[|name| + 3..])
  {
    assert FlagIndex([f] + tail, name) == Some(0);
    assert head + [f] + tail == head + ([f] + tail);
    FlagAfter(head, [f] + tail, name);
  }

  /** The plain words in front of every command. */
  lemma HeadIsPlain(name: string, sub: string)
    requires Plain(sub)
    ensures forall a | a in ["docker", "exec", CONTAINER, BINARY, "api", sub, "inbound.user"] ::
      !OccursAt(a, "--" + name + "=", 0)
  {
    forall a | a in ["docker", "exec", CONTAINER, BINARY, "api", sub, "inbound.user"]
      ensures !OccursAt(a, "--" + name + "=", 0)
    {
      PlainIsNoFlag(name, a);
    }
  }

  /** The add command carries the tag, email, uuid and alter id, in that order,
      each readable back unchanged (the alter id as a decimal number). */
  lemma AddCommandFlags(userId: string, email: string, alterId: int, tag: string)
    ensures var cmd := AddUserCommand(userId, email, alterId, tag);
      && FlagValue(cmd, "tag") == Some(tag)
      && FlagValue(cmd, "email") == Some(email)
      && FlagValue(cmd, "uuid") == Some(userId)
      && FlagValue(cmd, "alterid") == Some(Show(alterId))
      && ParseInt(FlagValue(cmd, "alterid").value) == Some(alterId)
      && FlagIndex(cmd, "tag") == Some(8)
      && FlagIndex(cmd, "email") == Some(9)
      && FlagIndex(cmd, "uuid") == Some(10)
      && FlagIndex(cmd, "alterid") == Some(11)
  {
    AddCommandTag(userId, email, alterId, tag);
    AddCommandEmail(userId, email, alterId, tag);
    AddCommandUuid(userId, email, alterId, tag);
    AddCommandAlterId(userId, email, alterId, tag);
    ParseShow(alterId);
  }

  /** The words of the add command in front of its four user flags. */
  function AddCommandHead(): seq<string> {
    ["docker", "exec", CONTAINER, BINARY, "api", "adi", "inbound.user", SERVER_FLAG]
  }

  lemma AddCommandHeadSkips(name: string)
    requires |name| > 0 && name[0] != 's'
    ensures forall a | a in AddCommandHead() :: !OccursAt(a, "--" + name + "=", 0)
  {
    HeadIsPlain(name, "adi");
    OtherFlag(name, "server", SERVER_ADDRESS);
  }

  lemma AddCommandTag(userId: string, email: string, alterId: int, tag: string)
    ensures FlagIndex(AddUserCommand(userId, email, alterId, tag), "tag") == Some(8)
    ensures FlagValue(AddUserCommand(userId, email, alterId, tag), "tag") == Some(tag)
  {
    var rest := [Flag("email", email), Flag("uuid", userId), Flag("alterid", Show(alterId))];
    assert AddUserCommand(userId, email, alterId, tag) == AddCommandHead() + [Flag("tag", tag)] + rest;
    AddCommandHeadSkips("tag");
    OwnFlag("tag", tag);
    FlagAt(AddCommandHead(), Flag("tag", tag), rest, "tag");
  }

  lemma AddCommandEmail(userId: string, email: string, alterId: int, tag: string)
    ensures FlagIndex(AddUserCommand(userId, email, alterId, tag), "email") == Some(9)
    ensures FlagValue(AddUserCommand(userId, email, alterId, tag), "email") == Some(email)
  {
    var head := AddCommandHead() + [Flag("tag", tag)];
    var rest := [Flag("uuid", userId), Flag("alterid", Show(alterId))];
    assert AddUserCommand(userId, email, alterId, tag) == head + [Flag("email", email)] + rest;
    AddCommandHeadSkips("email");
    OtherFlag("email", "tag", tag);
    OwnFlag("email", email);
    FlagAt(head, Flag("email", email), rest, "email");
  }

  lemma AddCommandUuid(userId: string, email: string, alterId: int, tag: string)
    ensures FlagIndex(AddUserCommand(userId, email, alterId, tag), "uuid") == Some(10)
    ensures FlagValue(AddUserCommand(userId, email, alterId, tag), "uuid") == Some(userId)
  {
    var head := AddCommandHead() + [Flag("tag", tag), Flag("email", email)];
    var rest := [Flag("alterid", Show(alterId))];
    assert AddUserCommand(userId, email, alterId, tag) == head + [Flag("uuid", userId)] + rest;
    AddCommandHeadSkips("uuid");
    OtherFlag("uuid", "tag", tag);
    OtherFlag("uuid", "email", email);
    OwnFlag("uuid", userId);
    FlagAt(head, Flag("uuid", userId), rest, "uuid");
  }

  lemma AddCommandAlterId(userId: string, email: string, alterId: int, tag: string)
    ensures FlagIndex(AddUserCommand(userId, email, alterId, tag), "alterid") == Some(11)
    ensures FlagValue(AddUserCommand(userId, email, alterId, tag), "alterid") == Some(Show(alterId))
  {
    var head := AddCommandHead() + [Flag("tag", tag), Flag("email", email), Flag("uuid", userId)];
    assert AddUserCommand(userId, email, alterId, tag) == head + [Flag("alterid", Show(alterId))] + [];
    AddCommandHeadSkips("alterid");
    OtherFlag("alterid", "tag", tag);
    OtherFlag("alterid", "email", email);
    OtherFlag("alterid", "uuid", userId);
    OwnFlag("alterid", Show(alterId));
    FlagAt(head, Flag("alterid", Show(alterId)), [], "alterid");
  }

  /** The remove command names the user by tag and email only. */
  lemma RemoveCommandFlags(email: string, tag: string)
    ensures var cmd := RemoveUserCommand(email, tag);
      && FlagValue(cmd, "tag") == Some(tag)
      && FlagValue(cmd, "email") == Some(email)
      && FlagValue(cmd, "uuid") == None
      && FlagValue(cmd, "alterid") == None
  {
    var head := ["docker", "exec", CONTAINER, BINARY, "api", "rmi", "inbound.user"];
    var t, e := Flag("tag", tag), Flag("email", email);
    var cmd := RemoveUserCommand(email, tag);
    assert cmd == (head + [SERVER_FLAG]) + [t] + [e];
    assert cmd == (head + [SERVER_FLAG, t]) + [e] + [];
    assert cmd == (head + [SERVER_FLAG, t, e]) + [];
    HeadIsPlain("tag", "rmi");
    HeadIsPlain("email", "rmi");
    HeadIsPlain("uuid", "rmi");
    HeadIsPlain("alterid", "rmi");
    OtherFlag("tag", "server", SERVER_ADDRESS);
    OtherFlag("email", "server", SERVER_ADDRESS);
    OtherFlag("uuid", "server", SERVER_ADDRESS);
    OtherFlag("alterid", "server", SERVER_ADDRESS);
    OtherFlag("email", "tag", tag);
    OtherFlag("uuid", "tag", tag);
    OtherFlag("uuid", "email", email);
    OtherFlag("alterid", "tag", tag);
    OtherFlag("alterid", "email", email);
    OwnFlag("tag", tag);
    OwnFlag("email", email);
    FlagAt(head + [SERVER_FLAG], t, [e], "tag");
    FlagAt(head + [SERVER_FLAG, t], e, [], "email");
    FlagAfter(head + [SERVER_FLAG, t, e], [], "uuid");
    FlagAfter(head + [SERVER_FLAG, t, e], [], "alterid");
  }

  /** A traffic counter name gives back the user it was built from. */
  lemma PatternRoundTrip(email: string, direction: string)
    ensures PatternUser(TrafficPattern(email, direction), direction) == Some(email)
  {
    var p := TrafficPattern(email, direction);
    var post := ">>>traffic>>>" + direction;
    assert p == "user>>>" + email + post;
    assert p[|p| - |post|..] == post;
  }

  /** The query command asks for the counter of the given user and direction. */
  lemma QueryCommandPattern(email: string, direction: string)
    ensures FlagValue(QueryCommand(email, direction), "pattern") == Some(TrafficPattern(email, direction))
    ensures PatternUser(FlagValue(QueryCommand(email, direction), "pattern").value, direction) == Some(email)
  {
    var pat := Flag("pattern", TrafficPattern(email, direction));
    var head := ["docker", "exec", CONTAINER, BINARY, "api", "statsquery", SERVER_FLAG];
    assert QueryCommand(email, direction) == head + [pat];
    forall a | a in head
      ensures !OccursAt(a, "--pattern=", 0)
    {
      if a == SERVER_FLAG {
        OtherFlag("pattern", "server", SERVER_ADDRESS);
      } else {
        PlainIsNoFlag("pattern", a);
      }
    }
    OwnFlag("pattern", TrafficPattern(email, direction));
    FlagAfter(head, [pat], "pattern");
    PatternRoundTrip(email, direction);
  }

  /** The reset command names the uplink and the downlink counter of the same user. */
  lemma ResetCommandPatterns(email: string)
    ensures var cmd := ResetCommand(email);
      && |cmd| == 10 && cmd[7] == "--reset"
      && PatternUser(cmd[8], UPLINK) == Some(email)
      && PatternUser(cmd[9], DOWNLINK) == Some(email)
  {
    PatternRoundTrip(email, UPLINK);
    PatternRoundTrip(email, DOWNLINK);
  }

  /* ---------------------------------------------------------------------- */
  /* Success flags                                                           */

  /** The call ran and the tool exited with status 0. */
  predicate ExitedZero(o: RunOutcome) {
    o.Exited? && o.code == 0
  }

  /** Exit status 0 is success; any other status, or a call that raised, is failure. */
  function SuccessFlag(o: RunOutcome): (ok: bool)
    ensures ok <==> ExitedZero(o)
    ensures o.Raised? ==> !ok
  {
    match o
    case Raised => false
    case Exited(code, _) => code == 0
  }

  /** add_user_via_api */
  function AddUserViaApi(run: Runner, userId: string, email: string,
                         alterId: int := DEFAULT_ALTER_ID, tag: string := DEFAULT_TAG): (ok: bool)
    ensures ok <==> ExitedZero(run(AddUserCommand(userId, email, alterId, tag)))
  {
    SuccessFlag(run(AddUserCommand(userId, email, alterId, tag)))
  }

  /** remove_user_via_api */
  function RemoveUserViaApi(run: Runner, email: string, tag: string := DEFAULT_TAG): (ok: bool)
    ensures ok <==> ExitedZero(run(RemoveUserCommand(email, tag)))
  {
    SuccessFlag(run(RemoveUserCommand(email, tag)))
  }

  /** reset_user_stats */
  function ResetUserStats(run: Runner, email: string): (ok: bool)
    ensures ok <==> ExitedZero(run(ResetCommand(email)))
  {
    SuccessFlag(run(ResetCommand(email)))
  }

  /* ---------------------------------------------------------------------- */
  /* Stats text                                                              */

  /** What line 76 makes of a line holding the marker: the text after the first
      marker, up to the next one, stripped and read by `int()`; `None` where
      `int()` raises. */
  function LineValue(line: string): Option<int>
    requires Find(line, MARKER).Some?
  {
    ParseInt(Strip(PieceAfter(line, MARKER, Find(line, MARKER).value)))
  }

  /** No line holds the marker. */
  predicate Unmarked(lines: seq<string>) {
    forall k | 0 <= k < |lines| :: Find(lines[k], MARKER).None?
  }

  /** Line `k` is the first line holding the marker. */
  predicate FirstMarkedAt(lines: seq<string>, k: int) {
    && 0 <= k < |lines|
    && Find(lines[k], MARKER).Some?
    && Unmarked(lines[..k])
  }

  /** Lines 74-79 from the loop on, scanning front to back: the first line
      holding the marker decides; a value that does not parse ends the search
      with 0, as does running out of lines. */
  function FirstMarkedValue(lines: seq<string>): int
    decreases |lines|
  {
    if |lines| == 0 then 0
    else if Find(lines[0], MARKER).Some? then LineValue(lines[0]).GetOr(0)
    else FirstMarkedValue(lines[1..])
  }

  /** parse_stats: 0 when no line holds the marker, and otherwise what the first
      line holding it reads as, 0 when that is no number. */
  function ParseStats(output: string): (r: int)
    ensures Unmarked(Split(output, '\n')) ==> r == 0
    ensures var lines := Split(output, '\n');
      forall k | FirstMarkedAt(lines, k) :: r == LineValue(lines[k]).GetOr(0)
  {
    var lines := Split(output, '\n');
    FirstMarkedValueMeaning(lines);
    FirstMarkedValue(lines)
  }

  /** The scan of `FirstMarkedValue` against the index of the first marked line. */
  lemma {:induction false} FirstMarkedValueMeaning(lines: seq<string>)
    ensures Unmarked(lines) ==> FirstMarkedValue(lines) == 0
    ensures forall k | FirstMarkedAt(lines, k) :: FirstMarkedValue(lines) == LineValue(lines[k]).GetOr(0)
  {
    if Unmarked(lines) {
      NoMarkerReadsZero(lines);
    }
    forall k | FirstMarkedAt(lines, k)
      ensures FirstMarkedValue(lines) == LineValue(lines[k]).GetOr(0)
    {
      FirstMarkedSkips(lines, k);
      assert lines[k..][0] == lines[k];
    }
  }

  /** Output with no line holding the marker reads as 0. */
  lemma {:induction false} NoMarkerReadsZero(lines: seq<string>)
    requires Unmarked(lines)
    ensures FirstMarkedValue(lines) == 0
    decreases |lines|
  {
    if |lines| > 0 {
      assert forall j | 0 <= j < |lines| - 1 :: lines[1..][j] == lines[j + 1];
      NoMarkerReadsZero(lines[1..]);
    }
  }

  /** The lines before the first marked one are skipped. */
  lemma {:induction false} FirstMarkedSkips(lines: seq<string>, k: nat)
    requires k <= |lines|
    requires Unmarked(lines[..k])
    ensures FirstMarkedValue(lines) == FirstMarkedValue(lines[k..])
    decreases k
  {
    if k > 0 {
      var pre := lines[1..][..k - 1];
      forall j | 0 <= j < k - 1
        ensures Find(pre[j], MARKER).None?
      {
        assert pre[j] == lines[..k][j + 1];
      }
      FirstMarkedSkips(lines[1..], k - 1);
      assert lines[1..][k - 1..] == lines[k..];
      assert lines[..k][0] == lines[0];
      assert FirstMarkedValue(lines) == FirstMarkedValue(lines[1..]);
    } else {
      assert lines[k..] == lines;
    }
  }

  /** parse_stats gives 0 for any output in which no line holds `value:`. */
  lemma {:induction false} ParseStatsNoMarker(lines: seq<string>)
    requires |lines| > 0
    requires forall k | 0 <= k < |lines| :: '\n' !in lines[k]
    requires Unmarked(lines)
    ensures ParseStats(Join(lines, '\n')) == 0
  {
    SplitJoin(lines, '\n');
  }

  /** `ParseStats`'s contract, for one first marked line. */
  lemma ParseStatsAt(output: string, k: nat)
    requires FirstMarkedAt(Split(output, '\n'), k)
    ensures ParseStats(output) == LineValue(Split(output, '\n')[k]).GetOr(0)
  {
  }

  /** Of the output lines, the first one holding `value:` decides what
      parse_stats returns, whatever the lines after it hold. */
  lemma {:induction false} ParseStatsFirstMarked(lines: seq<string>, k: nat)
    requires forall j | 0 <= j < |lines| :: '\n' !in lines[j]
    requires FirstMarkedAt(lines, k)
    ensures ParseStats(Join(lines, '\n')) == LineValue(lines[k]).GetOr(0)
  {
    SplitJoin(lines, '\n');
  }

  /** A first marked line whose value reads as `n` makes parse_stats return `n`. */
  lemma {:induction false} ParseStatsReadsFirstMarker(lines: seq<string>, k: nat, n: int)
    requires forall j | 0 <= j < |lines| :: '\n' !in lines[j]
    requires FirstMarkedAt(lines, k)
    requires LineValue(lines[k]) == Some(n)
    ensures ParseStats(Join(lines, '\n')) == n
  {
    ParseStatsFirstMarked(lines, k);
  }

  /** A first marked line whose value is not a number makes parse_stats return
      0, even when a later line holds a good value. */
  lemma {:induction false} BadFirstValueReadsZero(lines: seq<string>, k: nat)
    requires forall j | 0 <= j < |lines| :: '\n' !in lines[j]
    requires FirstMarkedAt(lines, k)
    requires LineValue(lines[k]).None?
    ensures ParseStats(Join(lines, '\n')) == 0
  {
    ParseStatsFirstMarked(lines, k);
  }

  /** A text without the letter `v` holds no marker. */
  lemma NoVNoMarker(s: string)
    requires 'v' !in s
    ensures Find(s, MARKER).None?
  {
    forall j | 0 <= j <= |s|
      ensures !OccursAt(s, MARKER, j)
    {
      if j + |MARKER| <= |s| {
        assert s[j] != 'v';
        assert s[j..j + |MARKER|][0] == s[j];
      }
    }
  }

  /** A whitespace-padded number has no `v` in it. */
  lemma NoVInPaddedNumber(pad1: string, n: int, pad2: string)
    requires AllSpace(pad1) && AllSpace(pad2)
    ensures 'v' !in pad1 + Show(n) + pad2
  {
    var sh := Show(n);
    assert forall i | 0 <= i < |pad1| :: pad1[i] != 'v' by {
      forall i | 0 <= i < |pad1| ensures pad1[i] != 'v' { assert IsSpace(pad1[i]); }
    }
    assert forall i | 0 <= i < |pad2| :: pad2[i] != 'v' by {
      forall i | 0 <= i < |pad2| ensures pad2[i] != 'v' { assert IsSpace(pad2[i]); }
    }
    assert forall i | 0 <= i < |sh| :: sh[i] != 'v' by {
      forall i | 0 <= i < |sh| ensures sh[i] != 'v' {
        if i > 0 || n >= 0 { assert IsDigit(sh[i]); }
      }
    }
  }

  /** Indentation, then the marker, then anything: the marker is found right after the indentation. */
  lemma MarkerAfterIndent(indent: string, rest: string)
    requires AllSpace(indent)
    ensures Find(indent + MARKER + rest, MARKER) == Some(|indent|)
  {
    var s := indent + MARKER + rest;
    assert OccursAt(s, MARKER, |indent|) by {
      assert s[|indent|..|indent| + |MARKER|] == MARKER;
    }
    forall j | 0 <= j < |indent|
      ensures !OccursAt(s, MARKER, j)
    {
      assert s[j] == indent[j];
      assert IsSpace(indent[j]);
      if j + |MARKER| <= |s| {
        assert s[j..j + |MARKER|][0] == s[j];
      }
    }
  }

  /** On a line made of indentation, the marker and a padded number, the marker
      is found right after the indentation and the number is what is read. */
  lemma MarkedLineValue(indent: string, pad1: string, n: int, pad2: string)
    requires AllSpace(indent) && AllSpace(pad1) && AllSpace(pad2)
    ensures var line := indent + MARKER + pad1 + Show(n) + pad2;
      && Find(line, MARKER) == Some(|indent|)
      && LineValue(line) == Some(n)
  {
    var line := indent + MARKER + pad1 + Show(n) + pad2;
    var body := pad1 + Show(n) + pad2;
    assert line == indent + MARKER + body;
    MarkerAfterIndent(indent, body);
    assert line[|indent| + |MARKER|..] == body;
    NoVInPaddedNumber(pad1, n, pad2);
    NoVNoMarker(body);
    assert PieceAfter(line, MARKER, |indent|) == body;
    StripPadded(pad1, Show(n), pad2);
    ParseShow(n);
  }

  /** A line of the form `  value: N` reads as N. */
  lemma ValueLineReads(n: int)
    ensures ParseStats("  value: " + Show(n)) == n
  {
    ValueLineMarked(n);
    SingleLineReads("  value: " + Show(n), n);
  }

  /** A one-line output whose line reads as `n`. */
  lemma SingleLineReads(line: string, n: int)
    requires '\n' !in line && FirstMarkedAt([line], 0) && LineValue(line) == Some(n)
    ensures ParseStats(line) == n
  {
    SplitWhole(line, '\n');
    assert Split(line, '\n')[0] == line;
    ParseStatsAt(line, 0);
  }

  lemma ValueLineMarked(n: int)
    ensures var line := "  value: " + Show(n);
      '\n' !in line && FirstMarkedAt([line], 0) && LineValue(line) == Some(n)
  {
    var line := "  value: " + Show(n);
    assert line == "  " + MARKER + " " + Show(n) + "";
    NoNewlineInShow(n);
    MarkedLineValue("  ", " ", n, "");
  }

  lemma NoNewlineInShow(n: int)
    ensures '\n' !in "  value: " + Show(n)
  {
    var sh := Show(n);
    forall i | 0 <= i < |sh|
      ensures sh[i] != '\n'
    {
      if i > 0 || n >= 0 { assert IsDigit(sh[i]); }
    }
    assert '\n' !in "  value: ";
  }

  /* ---------------------------------------------------------------------- */
  /* Traffic of one user                                                     */

  datatype Traffic = Traffic(uplink: int, downlink: int, total: int)

  /** get_user_stats: query both directions and add them up; if running either
      query raises, every counter is 0. */
  function GetUserStats(run: Runner, email: string): (t: Traffic)
    ensures t.total == t.uplink + t.downlink
    ensures run(QueryCommand(email, UPLINK)).Raised? || run(QueryCommand(email, DOWNLINK)).Raised?
            ==> t == Traffic(0, 0, 0)
    ensures run(QueryCommand(email, UPLINK)).Exited? && run(QueryCommand(email, DOWNLINK)).Exited?
            ==> t.uplink == ParseStats(run(QueryCommand(email, UPLINK)).stdout)
                && t.downlink == ParseStats(run(QueryCommand(email, DOWNLINK)).stdout)
  {
    var up := run(QueryCommand(email, UPLINK));
    if up.Raised? then Traffic(0, 0, 0)
    else
      var down := run(QueryCommand(email, DOWNLINK));
      if down.Raised? then Traffic(0, 0, 0)
      else
        var u := ParseStats(up.stdout);
        var d := ParseStats(down.stdout);
        Traffic(u, d, u + d)
  }

  /** When each query's output has a line holding `value:`, get_user_stats
      reports what the first such line of each output reads as (0 for one that
      is no number) and their sum, whatever the exit status. */
  lemma GetUserStatsReadsCounters(run: Runner, email: string, code1: int, out1: string, k1: nat,
                                  code2: int, out2: string, k2: nat)
    requires run(QueryCommand(email, UPLINK)) == Exited(code1, out1)
    requires run(QueryCommand(email, DOWNLINK)) == Exited(code2, out2)
    requires FirstMarkedAt(Split(out1, '\n'), k1)
    requires FirstMarkedAt(Split(out2, '\n'), k2)
    ensures var up := LineValue(Split(out1, '\n')[k1]).GetOr(0);
            var down := LineValue(Split(out2, '\n')[k2]).GetOr(0);
            GetUserStats(run, email) == Traffic(up, down, up + down)
  {
    ParseStatsAt(out1, k1);
    ParseStatsAt(out2, k2);
    GetUserStatsOf(run, email, code1, out1, code2, out2);
  }

  /** Both queries ran: the counters are parse_stats of the two outputs. */
  lemma GetUserStatsOf(run: Runner, email: string, code1: int, out1: string, code2: int, out2: string)
    requires run(QueryCommand(email, UPLINK)) == Exited(code1, out1)
    requires run(QueryCommand(email, DOWNLINK)) == Exited(code2, out2)
    ensures GetUserStats(run, email) == Traffic(ParseStats(out1), ParseStats(out2), ParseStats(out1) + ParseStats(out2))
  {
    var t := GetUserStats(run, email);
    assert t.uplink == ParseStats(out1) && t.downlink == ParseStats(out2);
  }
}
