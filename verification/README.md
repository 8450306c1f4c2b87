# sibsecsh authenticators in Dafny

sibsecsh (sib secure shell) is a login shell wrapper. It runs before the
user's real shell. It asks a fixed set of authenticators whether this login
(or, with `-c`, this one command) may go ahead. Then it starts the configured
shell in its place. Each authenticator answers with a tri-state decision:
`Some(true)` accepts, `Some(false)` rejects and `None` cancels, meaning the
next authenticator is asked.

The model covers the following:

- **The tri-state contract and the two silent authenticators**
  (`auth.dfy`, module `Auth`).
  - The local-origin allowlist looks up the client address in configured
    CIDR prefixes (RFC 4632, section 3.1).
  - The bypass accepts on a `~/NoSec` marker file or a nested-login
    variable.
- **The e-mail code authenticator** (`auth_email.dfy`).
  - Login mode: the masked address, the address-confirmation loop, then the
    code loop with `0` meaning "send it again".
  - Exec mode: a two-step handshake through the code file in the cache
    directory.
- **The TOTP authenticator** (`auth_totp.dfy`).
  - The hash algorithm is chosen from its configured name.
  - A code is compared within one time step either way (RFC 6238, sections
    4 and 5.2).
  - The three-prompt login loop, and the code as the head of a `-c` command.
- **The YubiKey authenticator** (`auth_yubico.dfy`).
  - A reply of the Yubico OTP validation server (protocol version 2.0) is
    parsed into a map, then checked in the order `otp`, `nonce`, `status`.
  - Failed transports are retried up to three times.
  - The login and exec decisions.
- **Configuration** (`config.dfy`).
  - `SecRcCfg` as a class whose fields each loaded file overrides in place.
  - The order in which configuration files are read, and the defaults.
  - The search of `/etc/shells`, and the arguments the final shell is
    started with.
- **The login origin** (`ip.dfy`): the first field of `SSH_CONNECTION`, else
  the bracketed host that `who -u am i` prints.
- **Argument splitting around the first `-c`** (`parse_args.dfy`).
- **Helper modules.**
  - `wrappers.dfy`: `Option`, `Result`, and `Panicking`, the outcome of an
    operation that may abort the process.
  - `console.dfy`: standard input as a finite sequence of lines.
  - `text.dfy`: the parts of Rust's `str` API the source uses.

Everything outside the program is an input of the model:

- the lines typed, and whether each mail went out;
- the clock and the TOTP code generator;
- the HTTP exchange with the validation server;
- the random draws;
- the contents of configuration files, the home directory and environment
  variables.

Where the source's random draws have a range, the range is a precondition.
A Rust panic is the `Panics` outcome, with three exceptions. The `expect`
calls on `shell_args` (src/config.rs:160) and on `totp_digits` and
`totp_timestep` (src/auth_totp.rs:51, 57, 124) are preconditions of
`Config.ExecuteShell` and `AuthTotp.Init`. These fields always have a value:
`Config.DefaultFields` sets them and `Config.MergeKeepsResolved` shows that
loading a file never removes them. The `expect` on `tmpdir`
(src/auth_email.rs:231-237) is of the same kind. The model leaves out the
code file's path, so that `expect` does not appear in it.

In these places the model follows the code rather than what the surrounding
comments and names suggest:

- In login and exec mode, a YubiKey password that the server answers
  negatively gives `Some(false)`, not a cancel (src/auth_yubico.rs:137-143,
  154-166).
- In exec mode, the e-mail authenticator ignores a failed mail and still
  answers `Some(false)` (src/auth_email.rs:242-254).
- The code file has one fixed name, not one name per session
  (src/auth_email.rs:238).
- The YubiKey authenticator's exec mode does not require a configured key.
  The source does not check one; this is the second finding below.
- `SecRcCfg` in src/config.rs has no `yubico_id` field, yet
  src/auth_yubico.rs:105 reads one. The model adds it as one more optional
  field, merged like the others.

## Model

| member | source | states |
|---|---|---|
| Auth.HostRouteContainsOnlyItself | src/auth.rs:67 | a `/32` or `/128` prefix contains exactly its own address and no other |
| Auth.FirstMatch | src/auth.rs:59-71 | the index found is the first entry that parses and contains the address, and no earlier entry does; none is found only when no entry contains it |
| Auth.LocalIpLogin | src/auth.rs:52-74 | never rejects; an unparsable origin cancels; accepts exactly when the list is configured and some entry parses to a prefix containing the origin |
| Auth.LocalIpExec | src/auth.rs:76-78 | gives the login verdict and leaves the command unchanged |
| Auth.MalformedEntryIgnored | src/auth.rs:60-66 | inserting an entry that does not parse, anywhere in the list, never changes the verdict |
| Auth.ExampleNetworks | src/auth.rs:60-69 | 10.0.0.5 lies inside 10.0.0.0/24 and outside 192.168.0.0/24 |
| Auth.BypassLogin | src/auth.rs:88-101 | never rejects; accepts exactly when `~/NoSec` exists or `SIB_FROM_IP` is set |
| Auth.BypassExec | src/auth.rs:103-105 | gives the login verdict and leaves the command unchanged |
| Ip.FindMatch | src/ip.rs:56-58 | the match of `\(.*\)` is the leftmost one and, from that start, the longest; no match means no `(`…`)` pair without a newline between them |
| Ip.SingleLineMatch | src/ip.rs:56-60 | on a one-line output, the match runs from the first `(` to the last `)` |
| Ip.Bracketed | src/ip.rs:58-61 | there is a result exactly when the pattern matches; it is the text strictly inside the match that starts leftmost and, from there, ends last |
| Ip.GetFrom | src/ip.rs:45-68 | the first whitespace-free token of `SSH_CONNECTION` when there is one; otherwise the bracketed text of the trimmed `who` output; otherwise empty |
| Config.MergeEmpty | src/config.rs:59-109 | loading a file that sets nothing changes nothing |
| Config.MergeAssociative | src/config.rs:59-109 | loading `a` and then `b` equals loading `b` on top of `a` in one step: only the order of the files matters |
| Config.MergeKeepsResolved | src/config.rs:60-108 | loading a file never takes away a value the program later reads with `expect` |
| Config.DefaultFields | src/config.rs:188-221 | the defaults leave every authenticator unconfigured and set the list, shell arguments, port 587, 6 digits, a 30-second step and SHA1 |
| Config.ConfigPaths | src/config.rs:117-135 | the two system-wide files are read first; `.secrc` and then `.secrc.toml` in the home directory follow, only when the home directory is known |
| Config.LastSetWins | src/config.rs:113-135 | for the e-mail address, taken as an example of an overriding field, the value from the last loaded file that sets it is the final one; files that failed to load do not count |
| Config.AcceptedIpsAccumulate | src/config.rs:60-69 | the address lists of all loaded files are concatenated in file order after the initial list |
| Config.SecRcCfg.Default | src/config.rs:188-221 | the new object holds the defaults, and every field read with `expect` has a value |
| Config.SecRcCfg.LoadConfig | src/config.rs:54-110 | a file that loaded is merged field by field into the object; a failure returns the error and changes nothing |
| Config.SecRcCfg.MergeGeneral | src/config.rs:60-84 | the list grows by the incoming entries, and each present general field overrides |
| Config.SecRcCfg.MergeAuthenticators | src/config.rs:85-108 | each present authenticator setting overrides the current one |
| Config.SecRcCfg.LoadAllPossible | src/config.rs:113-141 | the object ends up as all loaded files merged in order, and the result is `Ok` exactly when some file loaded |
| Config.SearchShells | src/config.rs:223-234 | an error reading the file is passed on; otherwise the answer is whether the name is one of the whitespace-separated entries |
| Config.ExecuteShell | src/config.rs:155-185 | no shell, or a shell missing from a readable `/etc/shells`, is refused; otherwise the shell is run with its configured arguments followed by the extra ones, and with the origin in `SIB_FROM_IP` |
| AuthTotp.ChooseHash | src/auth_totp.rs:68-79 | no name gives SHA1; a name shorter than three characters aborts; a name starting with `SHA` in any case gives SHA512 when it ends in `512`, SHA256 when it ends in `256` and SHA1 otherwise; any other name gives SHA1 |
| AuthTotp.ChooseHashByName | src/auth_totp.rs:72-78 | every hash is chosen by its own name, upper or lower case |
| AuthTotp.PrefixCheckedFirst | src/auth_totp.rs:72-73 | whatever it ends with, a name not starting with `SHA` keeps SHA1 |
| AuthTotp.Init | src/auth_totp.rs:67-86 | enabled exactly when a secret is configured; the hash is the one chosen from the name, and a bad name aborts |
| AuthTotp.CompareCode | src/auth_totp.rs:35-63 | a secret that does not decode, or no clock, cancels; a zero step aborts; otherwise the answer is whether the code is that of a moment at most one step from now |
| AuthTotp.WindowIsOneStepEitherWay | src/auth_totp.rs:53-60 | the three step counters tried are exactly the counters of the moments at most one step away from now |
| AuthTotp.IsAcceptedLogin | src/auth_totp.rs:88-117 | the prompt loop gives the verdict of the three-try specification |
| AuthTotp.LoginAcceptsOnlyValidCode | src/auth_totp.rs:92-110 | login accepts only if one of the first three lines held an accepted code and every earlier line a refused one |
| AuthTotp.ThreeWrongCodesReject | src/auth_totp.rs:92-113 | three refused codes in a row reject |
| AuthTotp.FirstDecidingCodeDecides | src/auth_totp.rs:92-110 | after refused codes only, the first comparison that does not refuse decides the login: an accepted code accepts, a comparison that cannot be made cancels at once, an abort aborts |
| AuthTotp.EmptyLineCancels | src/auth_totp.rs:96-105 | at any of the three prompts, after any wrong codes, a line that is empty once trimmed, or a failed read, cancels |
| AuthTotp.LoginReadsAtMostThreeLines | src/auth_totp.rs:91-94 | inputs that agree on their first three lines give the same verdict |
| AuthTotp.IsAcceptedExec | src/auth_totp.rs:119-141 | never rejects; accepts exactly when the first `digits` characters are an accepted code, and then returns exactly the rest; otherwise the command is unchanged |
| AuthTotp.ExecStripsExactlyTheCode | src/auth_totp.rs:130-134 | a valid code in front of any command gives exactly that command |
| AuthEmail.GenCode | src/auth_email.rs:61-64 | the code lies in [100000, 999999] and prints as six digits |
| AuthEmail.EmailEnabled | src/auth_email.rs:130-145 | enabled exactly when the address, host, port and sender are all set |
| AuthEmail.MaskEmail | src/auth_email.rs:163 | there is no mask exactly when the address has no `@` |
| AuthEmail.MaskHidesSecondHalfOfLocalPart | src/auth_email.rs:163-167 | the hidden part is the second half of the local part; the prompt has the address's length and stars exactly that part |
| AuthEmail.IdentityConfirmedOnlyByAddress | src/auth_email.rs:172-191 | the address is confirmed only by a line equal to the hidden part or the whole address, after wrong answers only |
| AuthEmail.ThreeWrongIdentitiesReject | src/auth_email.rs:172-196 | three wrong address answers reject |
| AuthEmail.AddressConfirms | src/auth_email.rs:172-191 | after wrong answers only, a non-empty line equal to the hidden part or the whole address confirms it, and the code phase reads from the next line |
| AuthEmail.EmptyAddressCancels | src/auth_email.rs:176-185 | after wrong answers only, an empty line or a failed read cancels |
| AuthEmail.CodeFrom | src/auth_email.rs:201-227 | the count of mails sent never goes down in the code loop |
| AuthEmail.LoginSpec | src/auth_email.rs:153-156 | a disabled authenticator cancels and sends nothing |
| AuthEmail.AfterIdentity | src/auth_email.rs:192-200 | no mail is sent unless the address was confirmed |
| AuthEmail.ThreeWrongCodesReject | src/auth_email.rs:201-227 | three wrong codes in a row reject without another mail |
| AuthEmail.ResendsThenCodeAccepts | src/auth_email.rs:210-219 | any number of lines that parse as `0`, whose mails went out, use up no try; the right code afterwards is accepted |
| AuthEmail.ZeroAsksAgain | src/auth_email.rs:210-211 | the line `0` with its newline, as typed, parses as `0` |
| AuthEmail.CodeAcceptsOnlyTheCode | src/auth_email.rs:201-219 | the code loop accepts only if some line held the code |
| AuthEmail.EarlierMailsSucceeded | src/auth_email.rs:211-217 | every mail but the last one sent went out |
| AuthEmail.MailFailureCancels | src/auth_email.rs:211-217 | a verdict other than cancel means every mail sent went out |
| AuthEmail.LoginAcceptsOnlyTheCode | src/auth_email.rs:153-228 | login accepts only if some line held the mailed code |
| AuthEmail.LoginAcceptsTheCode | src/auth_email.rs:153-219 | typing the address after wrong answers only, the first mail going out, any number of requests for another mail that go out, and then the code accept the login, with one mail per request plus the first |
| AuthEmail.LoginMailFailureCancels | src/auth_email.rs:197-217 | over the whole login, a failed mail cancels, and a verdict other than cancel means every mail went out |
| AuthEmail.WrongAddressThriceRejectsWithoutMail | src/auth_email.rs:172-196 | three wrong address answers reject before any mail is sent |
| AuthEmail.AskAddress | src/auth_email.rs:168-196 | the first prompt loop ends as the address-confirmation specification says |
| AuthEmail.AskCode | src/auth_email.rs:201-227 | the second prompt loop, with its try counter that a `0` gives back, ends as the code-loop specification says |
| AuthEmail.ExecAsWritten | src/auth_email.rs:230-278 | with an address configured, the process aborts exactly when the command is the address and a mail setting is missing, or a code is stored and a command other than the address is shorter than six characters |
| AuthEmail.ExecIntended | src/auth_email.rs:239-277 | a disabled authenticator cancels; the address stores the code and rejects; otherwise it accepts exactly when the command starts with the trimmed stored code, and then strips six characters and uses the file up; anything else cancels with nothing changed |
| AuthEmail.ExecAsWrittenAgrees | src/auth_email.rs:239-270 | for an enabled authenticator, wherever the code as written does not abort, it equals the corrected version |
| AuthEmail.DisabledAskAborts | src/auth_email.rs:240-242 | with only the address configured the authenticator is disabled; the address as command then aborts as written and cancels when corrected |
| AuthEmail.ShortCommandAborts | src/auth_email.rs:261-268 | with a code stored, the command `ls` aborts as written and cancels when corrected |
| AuthEmail.Handshake | src/auth_email.rs:240-266 | asking with the address stores the code; the next command starting with that code runs the rest and removes the file |
| AuthEmail.ReplayCancels | src/auth_email.rs:262-266 | replaying an accepted command after the file was removed cancels |
| AuthEmail.EmailAuthenticator.Init | src/auth_email.rs:128-151 | the object holds the address, the enabling check and a six-digit code |
| AuthEmail.EmailAuthenticator.IsAcceptedLogin | src/auth_email.rs:153-228 | the two prompt loops and the mails give the login specification's verdict and mail count |
| AuthEmail.EmailAuthenticator.IsAcceptedExec | src/auth_email.rs:230-278 | the verdict, the command and the code file after the call are those of the corrected exec check |
| AuthYubico.AddLine | src/auth_yubico.rs:58-64 | a line is accepted exactly when it is empty or holds a `=` |
| AuthYubico.ParseLinesOk | src/auth_yubico.rs:57-65 | a reply parses exactly when every line is empty or holds a `=` |
| AuthYubico.LaterLineWins | src/auth_yubico.rs:57-65 | a later `key=value` line overrides an earlier value of that key, the value may itself contain `=`, and an empty line changes nothing |
| AuthYubico.ParseReply | src/auth_yubico.rs:56-65 | the insertion loop builds the map of the reply's lines split at CR LF |
| AuthYubico.CheckReply | src/auth_yubico.rs:66-95 | `Ok(true)` exactly when `otp`, `nonce` and `status` echo the request with `OK`; a different `otp` rejects whatever follows; an error exactly when a field is missing at its turn |
| AuthYubico.VerifyOtp | src/auth_yubico.rs:34-100 | the retry loop gives the verification specification's result |
| AuthYubico.FirstResponseDecides | src/auth_yubico.rs:46-96 | after transport failures only, the first response alone decides, whatever later attempts would bring |
| AuthYubico.ThreeTransportFailures | src/auth_yubico.rs:45-99 | three transport failures give the error of the last one |
| AuthYubico.VerifiedMeansConfirmed | src/auth_yubico.rs:46-95 | a positive verification means some attempt got a readable reply echoing the password and nonce with status `OK` |
| AuthYubico.InitId | src/auth_yubico.rs:103-115 | an id is kept exactly when the configured one has at least twelve characters, and only its first twelve are kept |
| AuthYubico.Login | src/auth_yubico.rs:117-148 | no key, a read error or a line empty once trimmed cancels; a short line or another key's password rejects; for a password of the configured key the server decides: confirmed accepts, refused rejects, an error cancels |
| AuthYubico.LoginAcceptsOnlyConfirmedKey | src/auth_yubico.rs:126-143 | an accepted login typed a password of the configured key that the server confirmed |
| AuthYubico.ExecAsWritten | src/auth_yubico.rs:150-167 | fewer than 44 characters cancel; accepts exactly on a positive verification of the first 44 characters, whatever key is configured, and then returns exactly the rest |
| AuthYubico.ExecIntended | src/auth_yubico.rs:150-167 | no configured key cancels; with a key, a command shorter than 44 characters cancels and one starting with another key's id rejects without asking the server; acceptance needs a password of the configured key that the server confirms, and strips exactly 44 characters |
| AuthYubico.ExecIntendedAgrees | src/auth_yubico.rs:150-167 | for a password of the configured key, the two versions agree |
| AuthYubico.UnconfiguredExecAccepts | src/auth_yubico.rs:150-154 | with no key configured, login cancels, but exec as written accepts any confirmed password |
| AuthYubico.OtherKeyExecAccepts | src/auth_yubico.rs:150-154 | another key's password is refused at login but accepted by exec as written |
| AuthYubico.YubicoAuthenticator.Init | src/auth_yubico.rs:103-115 | the object keeps the truncated id |
| AuthYubico.YubicoAuthenticator.IsAcceptedLogin | src/auth_yubico.rs:117-148 | reading the line and verifying gives the login decision |
| AuthYubico.YubicoAuthenticator.IsAcceptedExec | src/auth_yubico.rs:150-167 | the verdict and command are those of the corrected exec check |
| ParseArgs.FindFlag | src/parse_args.rs:26-27 | the index found holds `-c` and no earlier argument does; none is found exactly when there is no `-c` |
| ParseArgs.ParseArgs | src/parse_args.rs:23-35 | aborts exactly when there are no arguments, or the first `-c` is the program name or the last argument |
| ParseArgs.NoFlagKeepsAll | src/parse_args.rs:34 | without `-c`, there is no command and every argument after the program name is kept |
| ParseArgs.FirstFlagSplits | src/parse_args.rs:26-32 | the argument after the first `-c` is the command; the rest are the arguments around the pair, in order, and there are three fewer of them |
| ParseArgs.LaterFlagsStay | src/parse_args.rs:26-31 | a `-c` after the first one stays among the other arguments |
| Text.TrimKeepsTheText | src/auth_totp.rs:101 | what `trim` keeps starts and ends with non-whitespace, and is empty exactly when the input is all whitespace |
| Text.TrimEndDropsTrailingWhitespace | src/auth_email.rs:181 | `trim_end` keeps a prefix that ends with non-whitespace and drops only whitespace |
| Text.SplitOnceAtFirst | src/auth_yubico.rs:61-63 | `split_once` splits at the first separator, so the value keeps any later ones |
| Text.JoinSplitCrlf | src/auth_yubico.rs:57 | joining the pieces of `split("\r\n")` with CR LF gives back the text, and no piece holds a CR LF |
| Text.FirstTokenIsLeadingWord | src/ip.rs:48 | the first token of `split_whitespace` is the leading word after the leading whitespace |
| Text.ParseU32Accepts | src/auth_email.rs:210 | `u32::from_str` accepts exactly an optional `+` and then digits whose value is below 2^32, and gives that value |
| Text.ParseNatToString | src/auth_email.rs:248 | a number printed in decimal parses back to itself |

## Left out

- Sending mail over SMTP, building the message and running `mail_passwdcmd`
  (src/auth_email.rs:66-124) are not modelled. Whether the `k`-th send
  succeeds is the input `mailOk(k)`.
- The HTTP request to the Yubico server and the URL encoding of its query
  (src/auth_yubico.rs:48-52) are not modelled. Each attempt's outcome is an
  input. The reply signature is not checked, in the source or in the model.
- HMAC-based code generation and base32 secret decoding in the TOTP library
  are replaced by an input generator:
  - whether the secret decodes;
  - the code of each step counter.
- Random draws are inputs: the e-mail code's draw, and the Yubico request
  id and nonce.
- The following are not modelled:
  - TOML decoding and reading files;
  - `home_dir` and its conversion to text;
  - environment variables;
  - running `who`;
  - replacing the process with the shell.

  Their results are inputs. A failure to replace the process with the
  shell (src/config.rs:181-184) is not modelled: a launch is the end of
  the model.
- Opening the log file (`open_log`, src/config.rs:144-152), all logging,
  prompts and flushing are not modelled. src/main.rs and src/error.rs are
  not part of this model.
- The loop that asks the authenticators in turn is not in the modelled
  source files, so it is not modelled.
- Two processes racing on the one code file are not modelled: the file is a
  single sequential slot.
- Strings are sequences of characters, one per byte. Panics from slicing
  inside a multi-byte UTF-8 character are not modelled. Whitespace for
  trimming and splitting is the Unicode White_Space set, as Rust uses it,
  although a non-ASCII character never stands for more than one byte here.
- `env::args` is iterated twice in src/parse_args.rs:24-26. The model
  assumes both passes see the same arguments, and does not model
  non-Unicode arguments.
- The `Regex::new` failure branch (src/ip.rs:63) cannot happen for the fixed
  pattern and is not modelled.
- AuthTotp.CompareCode: the one-step window is stated only when the clock is
  at least one step past the epoch. Earlier readings give step counter 0,
  and the library's handling of the step before it is not visible.
- AuthTotp.CompareCode: a zero time step is modelled as an abort. The
  division happens inside the library, which is not part of this model.
- Config.LastSetWins: proved for the e-mail address only. Every other
  overriding field is merged by the same `Override`.
- AuthYubico.AddLine: the error message quotes the malformed line without
  Rust's `Debug` escaping.
- Config.ExecuteShell: the source sets `SIB_FROM_IP` before it checks the
  shell, so the variable is also set when the shell is refused. The model
  records it only for a launch.
- AuthEmail.ExecAsWritten: the abort happens only when warning-level logging
  is enabled, because the message's arguments are evaluated only then.
  src/main.rs enables it on the terminal.
- AuthEmail.ExecIntended: a disabled authenticator also cancels when the
  command starts with a stored code. As written that case accepts; the
  corrected version treats exec like login, which never runs when disabled.

## Findings

| source | as written | input that shows it | evidently intended | confidence | as-written member | corrected member |
|---|---|---|---|---|---|---|
| src/auth_email.rs:261-269 | when the stored code does not match, the warning slices `&cmd[0..6]` even if `cmd` is shorter than six bytes | a code file holding `123456` and the exec command `ls` | a short command cancels like any other mismatch; the comment on line 261 says such a command is always bad | high, not executed | AuthEmail.ExecAsWritten, AuthEmail.ShortCommandAborts | AuthEmail.ExecIntended, AuthEmail.ExecAsWrittenAgrees, AuthEmail.Handshake |
| src/auth_email.rs:240-242 | exec mode never reads `enabled`; when the command is the address it calls `send_email`, which calls `expect` on the mail sender, port and host | a configuration that sets only `email` (the defaults leave `mail_host` and `mail_from` unset), and the exec command equal to that address | a disabled authenticator cancels in exec mode, as it does at login; the messages of those `expect` calls say the values cannot be missing there | high, not executed | AuthEmail.ExecAsWritten, AuthEmail.DisabledAskAborts | AuthEmail.ExecIntended, AuthEmail.ExecAsWrittenAgrees |
| src/auth_yubico.rs:150-154 | exec mode never looks at `yubico_id`, unlike login mode and unlike the TOTP exec mode, which checks that it is enabled | no `yubico_id` configured, and a 44-character command whose first 44 characters the server confirms: exec accepts while login cancels | with no id configured exec cancels (the id "also serves as `enabled`", line 28), and a password from another key is refused as at login | medium, not executed | AuthYubico.ExecAsWritten, AuthYubico.UnconfiguredExecAccepts, AuthYubico.OtherKeyExecAccepts | AuthYubico.ExecIntended, AuthYubico.ExecIntendedAgrees |
