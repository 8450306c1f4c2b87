/** The configuration of the shell (src/config.rs): its fields, the layered
    loading of configuration files where a later file overrides an earlier
    one, the built-in defaults, and the checks made before the configured
    shell is started. File contents, the home directory and the TOML decoder
    are inputs. */
module Config {
  import opened Wrappers
  import opened Text

  /** Unsigned integer widths of the configuration fields; a TOML value out
      of range is a decoding error, so a decoded field is always in range. */
  type U16 = n: nat | n < 0x1_0000
  type U32 = n: nat | n < 0x1_0000_0000
  type U64 = n: nat | n < 0x1_0000_0000_0000_0000

  /** The fields of `SecRcCfg`, every one of them optional. `yubicoId` is the
      Yubico key identity the Yubico authenticator reads; a missing key in a
      file decodes to `None`. */
  datatype CfgFields = CfgFields(
    acceptedIps: Option<seq<string>>,
    email: Option<string>,
    shell: Option<string>,
    shellArgs: Option<string>,
    logFile: Option<string>,
    tmpdir: Option<string>,
    mailHost: Option<string>,
    mailPort: Option<U16>,
    mailFrom: Option<string>,
    mailPasswdcmd: Option<string>,
    totpSecret: Option<string>,
    totpDigits: Option<U32>,
    totpTimestep: Option<U64>,
    totpHash: Option<string>,
    yubicoId: Option<string>)

  /** A file that sets nothing. */
  const Empty := CfgFields(None, None, None, None, None, None, None, None, None, None, None, None, None, None, None)

  // ---------------------------------------------------------------------------
  // Merging one file into the current configuration

  /** A present incoming value replaces the current one; an absent one keeps it. */
  function Override<T>(current: Option<T>, incoming: Option<T>): Option<T> {
    if incoming.Some? then incoming else current
  }

  /** Incoming addresses go after the current ones, or become the list when
      there is none yet. */
  function AppendIps(current: Option<seq<string>>, incoming: Option<seq<string>>): Option<seq<string>>
  {
    match incoming
    case None => current
    case Some(more) => if current.Some? then Some(current.value + more) else Some(more)
  }

  /** The configuration after one file has been loaded on top of `current`. */
  function Merge(current: CfgFields, incoming: CfgFields): CfgFields {
    CfgFields(
      AppendIps(current.acceptedIps, incoming.acceptedIps),
      Override(current.email, incoming.email),
      Override(current.shell, incoming.shell),
      Override(current.shellArgs, incoming.shellArgs),
      Override(current.logFile, incoming.logFile),
      Override(current.tmpdir, incoming.tmpdir),
      Override(current.mailHost, incoming.mailHost),
      Override(current.mailPort, incoming.mailPort),
      Override(current.mailFrom, incoming.mailFrom),
      Override(current.mailPasswdcmd, incoming.mailPasswdcmd),
      Override(current.totpSecret, incoming.totpSecret),
      Override(current.totpDigits, incoming.totpDigits),
      Override(current.totpTimestep, incoming.totpTimestep),
      Override(current.totpHash, incoming.totpHash),
      Override(current.yubicoId, incoming.yubicoId))
  }

  /** A file that sets nothing changes nothing. */
  lemma MergeEmpty(current: CfgFields)
    ensures Merge(current, Empty) == current
  {
  }

  /** Loading `a` and then `b` is loading one file that holds `a` overridden
      by `b` (address lists concatenated): the order of the files is all
      that matters, not how they are grouped. */
  lemma MergeAssociative(base: CfgFields, a: CfgFields, b: CfgFields)
    ensures Merge(Merge(base, a), b) == Merge(base, Merge(a, b))
  {
    if base.acceptedIps.Some? && a.acceptedIps.Some? && b.acceptedIps.Some? {
      assert base.acceptedIps.value + a.acceptedIps.value + b.acceptedIps.value
          == base.acceptedIps.value + (a.acceptedIps.value + b.acceptedIps.value);
    }
  }

  /** The fields the rest of the program reads with `expect`: every one of
      them has a value. */
  predicate Resolved(c: CfgFields) {
    && c.acceptedIps.Some? && c.shellArgs.Some? && c.logFile.Some? && c.tmpdir.Some?
    && c.mailPort.Some? && c.totpDigits.Some? && c.totpTimestep.Some? && c.totpHash.Some?
  }

  /** Loading a file never takes a value away. */
  lemma MergeKeepsResolved(current: CfgFields, incoming: CfgFields)
    requires Resolved(current)
    ensures Resolved(Merge(current, incoming))
  {
  }

  // ---------------------------------------------------------------------------
  // Defaults

  /** `SecRcCfg::default`. `home` is the home directory, when it is known and
      valid Unicode. */
  function DefaultFields(home: Option<string>): (r: CfgFields)
    ensures Resolved(r)
    ensures r.email.None? && r.totpSecret.None? && r.shell.None? && r.yubicoId.None?
    ensures r.acceptedIps == Some([]) && r.shellArgs == Some("") && r.mailPort == Some(587)
    ensures r.totpDigits == Some(6) && r.totpTimestep == Some(30) && r.totpHash == Some("SHA1")
  {
    CfgFields(
      acceptedIps := Some([]),
      email := None,
      shell := None,
      shellArgs := Some(""),
      logFile := Some("/var/log/sibsecsh.log"),
      tmpdir := Some(if home.Some? then JoinPath(home.value, ".cache/sibsecsh") else "/tmp/sibsecsh"),
      mailHost := None,
      mailPort := Some(587),
      mailFrom := None,
      mailPasswdcmd := None,
      totpSecret := None,
      totpDigits := Some(6),
      totpTimestep := Some(30),
      totpHash := Some("SHA1"),
      yubicoId := None)
  }

  // ---------------------------------------------------------------------------
  // Loading several files

  /** The files looked at, in order: the two system-wide ones, then
      `~/.secrc` and `~/.secrc.toml` when the home directory is known. */
  function ConfigPaths(home: Option<string>): (paths: seq<string>)
    ensures |paths| == if home.Some? then 4 else 2
    ensures paths[..2] == ["/etc/secrc", "/etc/secrc.toml"]
    ensures home.Some? ==> paths[2..] == [JoinPath(home.value, ".secrc"), JoinPath(home.value, ".secrc.toml")]
  {
    ["/etc/secrc", "/etc/secrc.toml"]
    + if home.Some? then [JoinPath(home.value, ".secrc"), JoinPath(home.value, ".secrc.toml")] else []
  }

  /** The configuration after the files whose load results are `loads` have
      been applied to `base` in order; a file that failed to open, read or
      decode is skipped. */
  function MergeAll(base: CfgFields, loads: seq<Result<CfgFields, string>>): CfgFields
    decreases |loads|
  {
    if |loads| == 0 then base
    else
      var before := MergeAll(base, loads[..|loads| - 1]);
      var last := loads[|loads| - 1];
      if last.Ok? then Merge(before, last.value) else before
  }

  /** Applying one more load result. */
  lemma MergeAllStep(base: CfgFields, loads: seq<Result<CfgFields, string>>, i: nat)
    requires i < |loads|
    ensures MergeAll(base, loads[..i + 1]) ==
      if loads[i].Ok? then Merge(MergeAll(base, loads[..i]), loads[i].value) else MergeAll(base, loads[..i])
  {
    assert loads[..i + 1][..i] == loads[..i];
  }

  /** The load results of `paths` in order. */
  function LoadsOf(paths: seq<string>, fs: string -> Result<CfgFields, string>): (loads: seq<Result<CfgFields, string>>)
    ensures |loads| == |paths| && forall i :: 0 <= i < |paths| ==> loads[i] == fs(paths[i])
  {
    seq(|paths|, i requires 0 <= i < |paths| => fs(paths[i]))
  }

  /** A value set by a file that loaded wins over everything before it, and
      stays unless a later file that loaded sets it again. */
  lemma {:induction false} LastSetWins(base: CfgFields, loads: seq<Result<CfgFields, string>>, i: nat)
    requires i < |loads| && loads[i].Ok? && loads[i].value.email.Some?
    requires forall j :: i < j < |loads| ==> loads[j].Err? || loads[j].value.email.None?
    ensures MergeAll(base, loads).email == loads[i].value.email
    decreases |loads|
  {
    if i < |loads| - 1 {
      LastSetWins(base, loads[..|loads| - 1], i);
    }
  }

  /** The address lists of the loaded files accumulate in file order. */
  function IpsOf(loads: seq<Result<CfgFields, string>>): seq<string>
  {
    if |loads| == 0 then []
    else
      var last := loads[|loads| - 1];
      IpsOf(loads[..|loads| - 1]) + if last.Ok? && last.value.acceptedIps.Some? then last.value.acceptedIps.value else []
  }

  lemma {:induction false} AcceptedIpsAccumulate(base: CfgFields, loads: seq<Result<CfgFields, string>>)
    requires base.acceptedIps.Some?
    ensures MergeAll(base, loads).acceptedIps == Some(base.acceptedIps.value + IpsOf(loads))
    decreases |loads|
  {
    if |loads| > 0 {
      var init := loads[..|loads| - 1];
      AcceptedIpsAccumulate(base, init);
      var last := loads[|loads| - 1];
      var more := if last.Ok? && last.value.acceptedIps.Some? then last.value.acceptedIps.value else [];
      assert base.acceptedIps.value + IpsOf(init) + more == base.acceptedIps.value + (IpsOf(init) + more);
      assert IpsOf(loads) == IpsOf(init) + more;
      if last.Ok? {
        assert MergeAll(base, loads).acceptedIps == AppendIps(MergeAll(base, init).acceptedIps, last.value.acceptedIps);
        if last.value.acceptedIps.None? {
          assert IpsOf(init) + more == IpsOf(init);
        }
      } else {
        assert MergeAll(base, loads) == MergeAll(base, init);
        assert more == [] && IpsOf(init) + more == IpsOf(init);
      }
    } else {
      assert base.acceptedIps.value + [] == base.acceptedIps.value;
    }
  }

  // ---------------------------------------------------------------------------
  // The configuration object

  /** `SecRcCfg`: one mutable field per configuration entry. */
  class SecRcCfg {
    var acceptedIps: Option<seq<string>>
    var email: Option<string>
    var shell: Option<string>
    var shellArgs: Option<string>
    var logFile: Option<string>
    var tmpdir: Option<string>
    var mailHost: Option<string>
    var mailPort: Option<U16>
    var mailFrom: Option<string>
    var mailPasswdcmd: Option<string>
    var totpSecret: Option<string>
    var totpDigits: Option<U32>
    var totpTimestep: Option<U64>
    var totpHash: Option<string>
    var yubicoId: Option<string>

    /** The current values of all fields. */
    function Fields(): CfgFields
      reads this
    {
      CfgFields(acceptedIps, email, shell, shellArgs, logFile, tmpdir, mailHost, mailPort,
                mailFrom, mailPasswdcmd, totpSecret, totpDigits, totpTimestep, totpHash, yubicoId)
    }

    /** `SecRcCfg::default`. */
    constructor Default(home: Option<string>)
      ensures Fields() == DefaultFields(home)
      ensures Resolved(Fields())
    {
      var d := DefaultFields(home);
      acceptedIps, email, shell, shellArgs, logFile := d.acceptedIps, d.email, d.shell, d.shellArgs, d.logFile;
      tmpdir, mailHost, mailPort, mailFrom, mailPasswdcmd := d.tmpdir, d.mailHost, d.mailPort, d.mailFrom, d.mailPasswdcmd;
      totpSecret, totpDigits, totpTimestep, totpHash, yubicoId := d.totpSecret, d.totpDigits, d.totpTimestep, d.totpHash, d.yubicoId;
    }

    /** `load_config`: `file` is what opening, reading and decoding the file
        gave. On failure nothing changes; on success each present field
        overrides and the address list grows. */
    method LoadConfig(file: Result<CfgFields, string>) returns (r: Result<(), string>)
      modifies this
      ensures r.Ok? <==> file.Ok?
      ensures file.Ok? ==> Fields() == Merge(old(Fields()), file.value)
      ensures file.Err? ==> Fields() == old(Fields())
    {
      if file.Err? {
        return Err(file.error);
      }
      MergeGeneral(file.value);
      MergeAuthenticators(file.value);
      return Ok(());
    }

    /** The first half of `load_config`'s field updates: the address list,
        the shell and the log and cache locations. */
    method MergeGeneral(incoming: CfgFields)
      modifies this`acceptedIps, this`email, this`shell, this`shellArgs, this`logFile, this`tmpdir
      ensures acceptedIps == AppendIps(old(acceptedIps), incoming.acceptedIps)
      ensures email == Override(old(email), incoming.email)
      ensures shell == Override(old(shell), incoming.shell)
      ensures shellArgs == Override(old(shellArgs), incoming.shellArgs)
      ensures logFile == Override(old(logFile), incoming.logFile)
      ensures tmpdir == Override(old(tmpdir), incoming.tmpdir)
    {
      if incoming.acceptedIps.Some? {
        if acceptedIps.Some? {
          acceptedIps := Some(acceptedIps.value + incoming.acceptedIps.value);
        } else {
          acceptedIps := incoming.acceptedIps;
        }
      }
      email := Override(email, incoming.email);
      shell := Override(shell, incoming.shell);
      shellArgs := Override(shellArgs, incoming.shellArgs);
      logFile := Override(logFile, incoming.logFile);
      tmpdir := Override(tmpdir, incoming.tmpdir);
    }

    /** The second half: the settings of the mail, TOTP and Yubico
        authenticators. */
    method MergeAuthenticators(incoming: CfgFields)
      modifies this`mailHost, this`mailPort, this`mailFrom, this`mailPasswdcmd, this`totpSecret,
               this`totpDigits, this`totpTimestep, this`totpHash, this`yubicoId
      ensures mailHost == Override(old(mailHost), incoming.mailHost)
      ensures mailPort == Override(old(mailPort), incoming.mailPort)
      ensures mailFrom == Override(old(mailFrom), incoming.mailFrom)
      ensures mailPasswdcmd == Override(old(mailPasswdcmd), incoming.mailPasswdcmd)
      ensures totpSecret == Override(old(totpSecret), incoming.totpSecret)
      ensures totpDigits == Override(old(totpDigits), incoming.totpDigits)
      ensures totpTimestep == Override(old(totpTimestep), incoming.totpTimestep)
      ensures totpHash == Override(old(totpHash), incoming.totpHash)
      ensures yubicoId == Override(old(yubicoId), incoming.yubicoId)
    {
      mailHost := Override(mailHost, incoming.mailHost);
      mailPort := Override(mailPort, incoming.mailPort);
      mailFrom := Override(mailFrom, incoming.mailFrom);
      mailPasswdcmd := Override(mailPasswdcmd, incoming.mailPasswdcmd);
      totpSecret := Override(totpSecret, incoming.totpSecret);
      totpDigits := Override(totpDigits, incoming.totpDigits);
      totpTimestep := Override(totpTimestep, incoming.totpTimestep);
      totpHash := Override(totpHash, incoming.totpHash);
      yubicoId := Override(yubicoId, incoming.yubicoId);
    }

    /** `load_all_possible`: every file of `ConfigPaths(home)` in order,
        later ones overriding earlier ones; `Ok` when at least one loaded. */
    method LoadAllPossible(home: Option<string>, fs: string -> Result<CfgFields, string>) returns (r: Result<(), string>)
      modifies this
      ensures Fields() == MergeAll(old(Fields()), LoadsOf(ConfigPaths(home), fs))
      ensures r.Ok? <==> exists i :: 0 <= i < |ConfigPaths(home)| && fs(ConfigPaths(home)[i]).Ok?
    {
      var paths := ConfigPaths(home);
      var loads := LoadsOf(paths, fs);
      var foundAny := false;
      ghost var start := Fields();
      for i := 0 to |paths|
        invariant Fields() == MergeAll(start, loads[..i])
        invariant foundAny <==> exists j :: 0 <= j < i && fs(paths[j]).Ok?
      {
        MergeAllStep(start, loads, i);
        var res := LoadConfig(loads[i]);
        if res.Ok? {
          foundAny := true;
        }
      }
      assert loads[..|paths|] == loads;
      if foundAny {
        r := Ok(());
      } else {
        r := Err("No configuration found");
      }
    }
  }

  // ---------------------------------------------------------------------------
  // Starting the shell

  /** Whether `name` is one of the whitespace-separated entries of the
      shells file. */
  predicate Listed(name: string, shellsFile: string) {
    name in SplitWhitespace(shellsFile)
  }

  /** `search_shells`: scan the entries of `/etc/shells` (`shellsFile` is
      its contents, or the error opening or reading it gave). */
  method SearchShells(name: string, shellsFile: Result<string, string>) returns (r: Result<bool, string>)
    ensures shellsFile.Err? ==> r == Err(shellsFile.error)
    ensures shellsFile.Ok? ==> r.Ok? && (r.value <==> Listed(name, shellsFile.value))
  {
    if shellsFile.Err? {
      return Err(shellsFile.error);
    }
    var shells := SplitWhitespace(shellsFile.value);
    var found := false;
    for i := 0 to |shells|
      invariant found <==> name in shells[..i]
    {
      if shells[i] == name {
        found := true;
      }
      assert shells[..i + 1] == shells[..i] + [shells[i]];
    }
    assert shells[..|shells|] == shells;
    return Ok(found);
  }

  /** What `execute_shell` ends in: the shell is refused, or the process is
      replaced by `program` run with `args`, with `SIB_FROM_IP` set to
      `sibFromIp`. */
  datatype Launch = Refused(error: string) | Replaced(program: string, args: seq<string>, sibFromIp: string)

  /** `execute_shell`. `origin` is what `get_from` returned and
      `shellsFile` is what reading `/etc/shells` gave. */
  function ExecuteShell(cfg: CfgFields, additional: seq<string>, origin: string,
                        shellsFile: Result<string, string>): (r: Launch)
    requires cfg.shellArgs.Some?
    ensures cfg.shell.None? ==> r.Refused?
    ensures r.Replaced? <==> cfg.shell.Some? && (shellsFile.Err? || Listed(cfg.shell.value, shellsFile.value))
    ensures r.Replaced? ==> r.program == cfg.shell.value && r.sibFromIp == origin
    ensures r.Replaced? ==> r.args == SplitWhitespace(cfg.shellArgs.value) + additional
    ensures cfg.shell.Some? && shellsFile.Ok? && !Listed(cfg.shell.value, shellsFile.value) ==>
      r == Refused("non-standard shell")
  {
    var args := SplitWhitespace(cfg.shellArgs.value) + additional;
    if cfg.shell.None? then Refused("`SecRcCfg.shell` should not be `None`")
    else if shellsFile.Ok? && !Listed(cfg.shell.value, shellsFile.value) then Refused("non-standard shell")
    else Replaced(cfg.shell.value, args, origin)
  }
}
