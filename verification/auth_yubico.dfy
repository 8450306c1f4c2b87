/** The hardware-token authenticator (src/auth_yubico.rs). A YubiKey one-time
    password is sent to the Yubico validation server (validation protocol
    version 2.0, `wsapi/2.0/verify`), whose reply is a list of `key=value`
    lines; the echoed `otp` and `nonce` and the `status` decide the outcome.
    The reply signature is not checked, as in the source.

    The server is an input: `http(request, k)` is the outcome of the `k`-th
    attempt at sending `request`. The random request id and nonce are
    inputs too. */
module AuthYubico {
  import opened Wrappers
  import opened Text
  import opened Console
  import opened Auth
  import Config

  const YubicoServer: string := "https://api.yubico.com/wsapi/2.0/verify"

  // ---------------------------------------------------------------------------
  // The reply

  /** The reply as a map from key to value (a `BTreeMap` in the source). */
  type Reply = map<string, string>

  /** A line the parser accepts: empty (skipped) or holding a `=`. */
  predicate WellFormedLine(line: string) {
    line == [] || '=' in line
  }

  /** One step of the parsing loop: an empty line is skipped; otherwise the
      line is split at its first `=` and the pair inserted, replacing an
      earlier value of the same key. */
  function AddLine(kvs: Reply, line: string): (r: Result<Reply, string>)
    ensures r.Ok? <==> WellFormedLine(line)
  {
    if line == [] then Ok(kvs)
    else
      match SplitOnce(line, '=')
      case None => Err("Malformed reply \"" + line + "\": missing key or value")
      case Some((key, value)) => Ok(kvs[key := value])
  }

  /** The parsing loop over the lines, from left to right, stopping at the
      first malformed line. */
  function ParseLines(kvs: Reply, lines: seq<string>): Result<Reply, string>
    decreases |lines|
  {
    if |lines| == 0 then Ok(kvs)
    else
      match AddLine(kvs, lines[0])
      case Err(e) => Err(e)
      case Ok(next) => ParseLines(next, lines[1..])
  }

  /** The map built from a reply body split at CR LF. */
  function ReplyMap(body: string): Result<Reply, string> {
    ParseLines(map[], SplitCrlf(body))
  }

  /** The parse succeeds exactly when every line is empty or holds a `=`. */
  lemma {:induction false} ParseLinesOk(kvs: Reply, lines: seq<string>)
    ensures ParseLines(kvs, lines).Ok? <==> forall i :: 0 <= i < |lines| ==> WellFormedLine(lines[i])
    decreases |lines|
  {
    if |lines| > 0 && AddLine(kvs, lines[0]).Ok? {
      ParseLinesOk(AddLine(kvs, lines[0]).value, lines[1..]);
      assert forall i :: 1 <= i < |lines| ==> lines[i] == lines[1..][i - 1];
    }
  }

  /** Parsing one more line continues from the map of the lines before it. */
  lemma {:induction false} ParseLinesSnoc(kvs: Reply, lines: seq<string>, line: string)
    ensures ParseLines(kvs, lines + [line]) ==
      match ParseLines(kvs, lines)
      case Err(e) => Err(e)
      case Ok(m) => AddLine(m, line)
    decreases |lines|
  {
    if |lines| == 0 {
      assert lines + [line] == [line];
    } else {
      assert (lines + [line])[1..] == lines[1..] + [line];
      if AddLine(kvs, lines[0]).Ok? {
        ParseLinesSnoc(AddLine(kvs, lines[0]).value, lines[1..], line);
      }
    }
  }

  /** A later line overrides an earlier value of the same key, an empty
      line changes nothing, and a value may itself contain `=`. */
  lemma LaterLineWins(kvs: Reply, lines: seq<string>, key: string, value: string)
    requires '=' !in key && ParseLines(kvs, lines).Ok?
    ensures ParseLines(kvs, lines + [key + "=" + value]) == Ok(ParseLines(kvs, lines).value[key := value])
    ensures ParseLines(kvs, lines + [""]) == ParseLines(kvs, lines)
  {
    ParseLinesSnoc(kvs, lines, key + "=" + value);
    ParseLinesSnoc(kvs, lines, "");
    SplitOnceAtFirst(key, '=', value);
  }

  /** The loop of `verify_otp` that builds the map with `insert`. */
  method ParseReply(body: string) returns (r: Result<Reply, string>)
    ensures r == ReplyMap(body)
  {
    var lines := SplitCrlf(body);
    var kvs: Reply := map[];
    for i := 0 to |lines|
      invariant ParseLines(kvs, lines[i..]) == ReplyMap(body)
    {
      assert lines[i..][1..] == lines[i + 1..];
      var line := lines[i];
      if line == [] {
        continue;
      }
      match SplitOnce(line, '=')
      case None =>
        return Err("Malformed reply \"" + line + "\": missing key or value");
      case Some((key, value)) =>
        kvs := kvs[key := value];
    }
    assert lines[|lines|..] == [];
    return Ok(kvs);
  }

  // ---------------------------------------------------------------------------
  // Checking the reply

  /** The server confirmed this password for this request. */
  predicate Confirms(kvs: Reply, otp: string, nonce: string) {
    && "otp" in kvs && kvs["otp"] == otp
    && "nonce" in kvs && kvs["nonce"] == nonce
    && "status" in kvs && kvs["status"] == "OK"
  }

  /** The checks of `verify_otp`, in order: `otp`, `nonce`, `status`. A
      missing field is an error, a different value a rejection. */
  function CheckReply(kvs: Reply, otp: string, nonce: string): (r: Result<bool, string>)
    ensures r == Ok(true) <==> Confirms(kvs, otp, nonce)
    ensures "otp" in kvs && kvs["otp"] != otp ==> r == Ok(false)
    ensures r.Err? <==>
      "otp" !in kvs || (kvs["otp"] == otp && ("nonce" !in kvs || (kvs["nonce"] == nonce && "status" !in kvs)))
  {
    if "otp" !in kvs then Err("`otp` not in the response")
    else if kvs["otp"] != otp then Ok(false)
    else if "nonce" !in kvs then Err("`nonce` not in the response")
    else if kvs["nonce"] != nonce then Ok(false)
    else if "status" !in kvs then Err("`status` not in the response")
    else Ok(kvs["status"] == "OK")
  }

  /** What a delivered response yields: an unreadable body or a malformed
      reply is an error, otherwise the checks decide. */
  function Respond(body: Result<string, string>, otp: string, nonce: string): Result<bool, string> {
    match body
    case Err(e) => Err(e)
    case Ok(text) =>
      match ReplyMap(text)
      case Err(e) => Err(e)
      case Ok(kvs) => CheckReply(kvs, otp, nonce)
  }

  // ---------------------------------------------------------------------------
  // The request and its retries

  /** The outcome of one request: a response whose body could or could not
      be read as text, or a transport error. */
  datatype HttpOutcome = Delivered(body: Result<string, string>) | TransportFailed(error: string)

  /** The request: the server and its three query parameters. */
  datatype Request = Request(url: string, id: string, nonce: string, otp: string)

  function RequestFor(id: nat, nonce: string, otp: string): Request {
    Request(YubicoServer, NatToString(id), nonce, otp)
  }

  /** The random draws of `verify_otp`: an id in [0, 999] and an
      alphanumeric nonce of 16 to 40 characters. */
  predicate ValidDraw(id: nat, nonce: string) {
    id < 1000 && 16 <= |nonce| <= 40 && forall k :: 0 <= k < |nonce| ==> IsAsciiAlphanumeric(nonce[k])
  }

  /** The retry loop from attempt `attempt` on; `lastError` is the error of
      the previous attempt. */
  function VerifyFrom(request: Request, http: (Request, nat) -> HttpOutcome, attempt: nat, lastError: string): Result<bool, string>
    requires attempt <= 3
    decreases 3 - attempt
  {
    if attempt == 3 then Err(lastError)
    else
      match http(request, attempt)
      case Delivered(body) => Respond(body, request.otp, request.nonce)
      case TransportFailed(e) => VerifyFrom(request, http, attempt + 1, e)
  }

  /** `verify_otp` as a function of its draws and the server's behaviour. */
  function VerifySpec(otp: string, id: nat, nonce: string, http: (Request, nat) -> HttpOutcome): Result<bool, string> {
    VerifyFrom(RequestFor(id, nonce, otp), http, 0, "")
  }

  /** `verify_otp`: up to three attempts; the first response decides. */
  method VerifyOtp(otp: string, id: nat, nonce: string, http: (Request, nat) -> HttpOutcome) returns (r: Result<bool, string>)
    requires ValidDraw(id, nonce)
    ensures r == VerifySpec(otp, id, nonce, http)
  {
    var request := RequestFor(id, nonce, otp);
    var lastError := "";
    for attempt := 0 to 3
      invariant VerifyFrom(request, http, attempt, lastError) == VerifySpec(otp, id, nonce, http)
    {
      match http(request, attempt)
      case Delivered(body) =>
        if body.Err? {
          return Err(body.error);
        }
        var kvs := ParseReply(body.value);
        if kvs.Err? {
          return Err(kvs.error);
        }
        return CheckReply(kvs.value, otp, nonce);
      case TransportFailed(e) =>
        lastError := e;
    }
    return Err(lastError);
  }

  /** After transport failures only, the first delivered response alone
      decides, whatever the later attempts would have brought. */
  lemma {:induction false} FirstResponseDecides(request: Request, http: (Request, nat) -> HttpOutcome,
                                                attempt: nat, lastError: string, j: nat)
    requires attempt <= j < 3
    requires forall k :: attempt <= k < j ==> http(request, k).TransportFailed?
    requires http(request, j).Delivered?
    ensures VerifyFrom(request, http, attempt, lastError) == Respond(http(request, j).body, request.otp, request.nonce)
    decreases j - attempt
  {
    if attempt < j {
      FirstResponseDecides(request, http, attempt + 1, http(request, attempt).error, j);
    }
  }

  /** Three transport failures give the error of the last one. */
  lemma ThreeTransportFailures(otp: string, id: nat, nonce: string, http: (Request, nat) -> HttpOutcome)
    requires forall k :: 0 <= k < 3 ==> http(RequestFor(id, nonce, otp), k).TransportFailed?
    ensures VerifySpec(otp, id, nonce, http) == Err(http(RequestFor(id, nonce, otp), 2).error)
  {
    var request := RequestFor(id, nonce, otp);
    assert http(request, 0).TransportFailed? && http(request, 1).TransportFailed? && http(request, 2).TransportFailed?;
  }

  /** A positive verification means some attempt got a readable reply that
      echoes this password and nonce with status `OK`. */
  lemma {:induction false} VerifiedMeansConfirmed(request: Request, http: (Request, nat) -> HttpOutcome, attempt: nat, lastError: string)
    requires attempt <= 3 && VerifyFrom(request, http, attempt, lastError) == Ok(true)
    ensures exists j :: attempt <= j < 3 && ConfirmedAt(request, http, j)
    decreases 3 - attempt
  {
    if http(request, attempt).Delivered? {
      assert ConfirmedAt(request, http, attempt);
    } else {
      VerifiedMeansConfirmed(request, http, attempt + 1, http(request, attempt).error);
    }
  }

  /** Attempt `j` got a readable, well-formed reply confirming the request. */
  predicate ConfirmedAt(request: Request, http: (Request, nat) -> HttpOutcome, j: nat) {
    && http(request, j).Delivered?
    && http(request, j).body.Ok?
    && ReplyMap(http(request, j).body.value).Ok?
    && Confirms(ReplyMap(http(request, j).body.value).value, request.otp, request.nonce)
  }

  // ---------------------------------------------------------------------------
  // The authenticator

  /** `init`: the first twelve characters of a configured id of at least
      twelve characters; shorter or missing ids disable the authenticator. */
  function InitId(cfg: Config.CfgFields): (yubicoId: Option<string>)
    ensures yubicoId.Some? <==> cfg.yubicoId.Some? && |cfg.yubicoId.value| >= 12
    ensures yubicoId.Some? ==> |yubicoId.value| == 12 && cfg.yubicoId.value == yubicoId.value + cfg.yubicoId.value[12..]
  {
    match cfg.yubicoId
    case None => None
    case Some(supplied) =>
      if |supplied| < 12 then None
      else
        assert supplied == supplied[..12] + supplied[12..];
        Some(supplied[..12])
  }

  /** `is_accepted_login`: one line is read and trimmed; an empty line
      cancels, a line too short or from another key rejects, and otherwise
      the server decides, an error cancelling. */
  function Login(yubicoId: Option<string>, stdin: seq<ReadLine>, id: nat, nonce: string,
                 http: (Request, nat) -> HttpOutcome): (r: Decision)
    ensures yubicoId.None? || LineAt(stdin, 0).ReadFailed? ==> r == None
    ensures r == Some(true) <==>
      && yubicoId.Some? && LineAt(stdin, 0).Got?
      && |Trim(LineAt(stdin, 0).text)| >= 14
      && Trim(LineAt(stdin, 0).text)[..12] == yubicoId.value
      && VerifySpec(Trim(LineAt(stdin, 0).text), id, nonce, http) == Ok(true)
    ensures yubicoId.Some? && LineAt(stdin, 0).Got? && Trim(LineAt(stdin, 0).text) != [] ==>
      var input := Trim(LineAt(stdin, 0).text);
      (|input| < 14 || input[..12] != yubicoId.value ==> r == Some(false))
    ensures yubicoId.Some? && LineAt(stdin, 0).Got? && Trim(LineAt(stdin, 0).text) == [] ==> r == None
    ensures yubicoId.Some? && LineAt(stdin, 0).Got? ==>
      var input := Trim(LineAt(stdin, 0).text);
      |input| >= 14 && input[..12] == yubicoId.value ==>
        && (VerifySpec(input, id, nonce, http) == Ok(false) ==> r == Some(false))
        && (VerifySpec(input, id, nonce, http).Err? ==> r == None)
  {
    if yubicoId.None? then None
    else
      match LineAt(stdin, 0)
      case ReadFailed => None
      case Got(text) =>
        var input := Trim(text);
        if input == [] then None
        else if |input| < 14 then Some(false)
        else if input[..12] != yubicoId.value then Some(false)
        else
          match VerifySpec(input, id, nonce, http)
          case Err(_) => None
          case Ok(b) => Some(b)
  }

  /** Login accepts only a password of the configured key that the server
      confirmed, echoing it and the nonce with status `OK`. */
  lemma LoginAcceptsOnlyConfirmedKey(yubicoId: Option<string>, stdin: seq<ReadLine>, id: nat, nonce: string,
                                     http: (Request, nat) -> HttpOutcome)
    requires Login(yubicoId, stdin, id, nonce, http) == Some(true)
    ensures var otp := Trim(LineAt(stdin, 0).text);
      && otp[..12] == yubicoId.value
      && exists j :: 0 <= j < 3 && ConfirmedAt(RequestFor(id, nonce, otp), http, j)
  {
    var otp := Trim(LineAt(stdin, 0).text);
    VerifiedMeansConfirmed(RequestFor(id, nonce, otp), http, 0, "");
  }

  /** `is_accepted_exec` as written: the first 44 characters go to the
      server whether or not a key is configured, and only a positive answer
      strips them. */
  function ExecAsWritten(cmd: string, id: nat, nonce: string, http: (Request, nat) -> HttpOutcome): (r: Exec)
    ensures |cmd| < 44 ==> r == Exec(None, cmd)
    ensures r.decision == Some(true) <==> |cmd| >= 44 && VerifySpec(cmd[..44], id, nonce, http) == Ok(true)
    ensures r.decision == Some(false) <==> |cmd| >= 44 && VerifySpec(cmd[..44], id, nonce, http) == Ok(false)
    ensures r.decision == Some(true) ==> cmd == cmd[..44] + r.cmd
    ensures r.decision != Some(true) ==> r.cmd == cmd
  {
    if |cmd| < 44 then Exec(None, cmd)
    else
      match VerifySpec(cmd[..44], id, nonce, http)
      case Err(_) => Exec(None, cmd)
      case Ok(b) =>
        if b then
          assert cmd == cmd[..44] + cmd[44..];
          Exec(Some(true), cmd[44..])
        else Exec(Some(false), cmd)
  }

  /** `is_accepted_exec` as the authenticator's own comment intends: no
      configured key cancels, and a password of another key is refused as
      at login. */
  function ExecIntended(yubicoId: Option<string>, cmd: string, id: nat, nonce: string,
                        http: (Request, nat) -> HttpOutcome): (r: Exec)
    ensures yubicoId.None? ==> r == Exec(None, cmd)
    ensures yubicoId.Some? && |cmd| < 44 ==> r == Exec(None, cmd)
    ensures yubicoId.Some? && |cmd| >= 44 && cmd[..12] != yubicoId.value ==> r == Exec(Some(false), cmd)
    ensures r.decision == Some(true) ==>
      && yubicoId.Some? && |cmd| >= 44 && cmd[..12] == yubicoId.value
      && VerifySpec(cmd[..44], id, nonce, http) == Ok(true)
      && cmd == cmd[..44] + r.cmd
    ensures r.decision != Some(true) ==> r.cmd == cmd
  {
    if yubicoId.None? || |cmd| < 44 then Exec(None, cmd)
    else if cmd[..12] != yubicoId.value then Exec(Some(false), cmd)
    else ExecAsWritten(cmd, id, nonce, http)
  }

  /** For a command carrying a password of the configured key the two
      agree. */
  lemma ExecIntendedAgrees(yubicoId: Option<string>, cmd: string, id: nat, nonce: string, http: (Request, nat) -> HttpOutcome)
    requires yubicoId.Some? && |cmd| >= 44 && cmd[..12] == yubicoId.value
    ensures ExecIntended(yubicoId, cmd, id, nonce, http) == ExecAsWritten(cmd, id, nonce, http)
  {
  }

  /** The input that shows the gap: with no key configured, login cancels,
      yet exec accepts any 44-character password the server confirms,
      whichever YubiKey produced it. */
  lemma UnconfiguredExecAccepts(stdin: seq<ReadLine>, cmd: string, id: nat, nonce: string, http: (Request, nat) -> HttpOutcome)
    requires |cmd| >= 44 && VerifySpec(cmd[..44], id, nonce, http) == Ok(true)
    ensures Login(None, stdin, id, nonce, http) == None
    ensures ExecAsWritten(cmd, id, nonce, http) == Exec(Some(true), cmd[44..])
    ensures ExecIntended(None, cmd, id, nonce, http) == Exec(None, cmd)
  {
  }

  /** The second input that shows it: a password from another key is
      refused at login but accepted by exec as written. */
  lemma OtherKeyExecAccepts(yubicoId: string, stdin: seq<ReadLine>, cmd: string, id: nat, nonce: string,
                            http: (Request, nat) -> HttpOutcome)
    requires |cmd| >= 44 && cmd[..12] != yubicoId
    requires LineAt(stdin, 0) == Got(cmd[..44]) && NoWhitespace(cmd[..44])
    requires VerifySpec(cmd[..44], id, nonce, http) == Ok(true)
    ensures Login(Some(yubicoId), stdin, id, nonce, http) == Some(false)
    ensures ExecAsWritten(cmd, id, nonce, http).decision == Some(true)
    ensures ExecIntended(Some(yubicoId), cmd, id, nonce, http) == Exec(Some(false), cmd)
  {
    TrimOfNoWhitespace(cmd[..44]);
    assert cmd[..44][..12] == cmd[..12];
  }

  /** `YubicoAuthenticator`: the configured id, which also says whether the
      authenticator is enabled. */
  class YubicoAuthenticator {
    const yubicoId: Option<string>

    constructor Init(cfg: Config.CfgFields)
      ensures yubicoId == InitId(cfg)
    {
      yubicoId := InitId(cfg);
    }

    /** `is_accepted_login`, reading the password from `stdin`. */
    method IsAcceptedLogin(stdin: seq<ReadLine>, id: nat, nonce: string, http: (Request, nat) -> HttpOutcome)
      returns (r: Decision)
      requires ValidDraw(id, nonce)
      ensures r == Login(yubicoId, stdin, id, nonce, http)
    {
      if yubicoId.None? {
        return None;
      }
      var line := LineAt(stdin, 0);
      if line.ReadFailed? {
        return None;
      }
      var input := Trim(line.text);
      if input == [] {
        r := None;
      } else if |input| < 14 {
        r := Some(false);
      } else if input[..12] != yubicoId.value {
        r := Some(false);
      } else {
        var result := VerifyOtp(input, id, nonce, http);
        r := if result.Ok? then Some(result.value) else None;
      }
    }

    /** `is_accepted_exec`, with the key check of the intended version;
        `cmd` comes back as `newCmd`. */
    method IsAcceptedExec(cmd: string, id: nat, nonce: string, http: (Request, nat) -> HttpOutcome)
      returns (r: Decision, newCmd: string)
      requires ValidDraw(id, nonce)
      ensures Exec(r, newCmd) == ExecIntended(yubicoId, cmd, id, nonce, http)
    {
      newCmd := cmd;
      if yubicoId.None? || |cmd| < 44 {
        return None, newCmd;
      }
      if cmd[..12] != yubicoId.value {
        return Some(false), newCmd;
      }
      var result := VerifyOtp(cmd[..44], id, nonce, http);
      match result
      case Err(_) =>
        r := None;
      case Ok(b) =>
        if b {
          newCmd := cmd[44..];
        }
        r := Some(b);
    }
  }
}
