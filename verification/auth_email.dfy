/** The e-mail code authenticator (src/auth_email.rs). In login mode the user
    first confirms the address (the hidden half or the whole of it), then
    types the six-digit code mailed to it, `0` asking for another mail. In
    exec mode the `-c` command is either the address itself, which mails the
    code and stores it in the code file, or starts with the six-digit code,
    which is checked against that file and used up.

    Delivering a mail is an input: `mailOk(k)` says whether the `k`-th send
    (counting from 0) succeeded. The random draw of the code is an input. */
module AuthEmail {
  import opened Wrappers
  import opened Text
  import opened Console
  import opened Auth
  import Config

  // ---------------------------------------------------------------------------
  // Set-up

  /** `gen_code`: the draw is a uniform number below 900000, so the code is
      between 100000 and 999999 and prints as exactly six digits. */
  function GenCode(draw: nat): (code: nat)
    requires draw < 900000
    ensures 100000 <= code <= 999999
    ensures |NatToString(code)| == 6
  {
    assert Pow10(5) == 100000 && Pow10(6) == 1000000;
    NatToStringLength(100000 + draw, 6);
    100000 + draw
  }

  /** The if-chain of `init`: the address and all three mail settings. */
  function EmailEnabled(cfg: Config.CfgFields): (enabled: bool)
    ensures enabled <==> cfg.email.Some? && cfg.mailHost.Some? && cfg.mailPort.Some? && cfg.mailFrom.Some?
  {
    if cfg.email.Some? then
      if cfg.mailHost.None? then false
      else if cfg.mailPort.None? then false
      else if cfg.mailFrom.None? then false
      else true
    else false
  }

  // ---------------------------------------------------------------------------
  // The masked address

  function Stars(n: nat): (s: string)
    ensures |s| == n && forall k :: 0 <= k < n ==> s[k] == '*'
  {
    if n == 0 then [] else Stars(n - 1) + ['*']
  }

  /** The part of the address the user must type (`shadowed`) and the
      prompt's rendering of the address with that part starred out. */
  datatype Masked = Masked(shadowed: string, shown: string)

  /** The masking in `is_accepted_login`: with `n` the position of the last
      `@`, the second half of the local part `[n/2, n)` is hidden. No `@`,
      no mask. */
  function MaskEmail(email: string): (r: Option<Masked>)
    ensures r.None? <==> '@' !in email
  {
    match FindLast(email, '@')
    case None => None
    case Some(n) => Some(Masked(email[n / 2..n], email[..n / 2] + Stars(n - n / 2) + email[n..]))
  }

  /** The hidden part is the second half of the local part, and the prompt
      shows the address with exactly that part starred out. */
  lemma MaskHidesSecondHalfOfLocalPart(email: string)
    requires '@' in email
    ensures var n := FindLast(email, '@').value;
      var m := MaskEmail(email).value;
      && email == email[..n / 2] + m.shadowed + email[n..]
      && |m.shown| == |email|
      && forall k :: 0 <= k < |email| ==> m.shown[k] == if n / 2 <= k < n then '*' else email[k]
  {
    var n := FindLast(email, '@').value;
    var h := n / 2;
    assert h <= n;
    var m := MaskEmail(email).value;
    assert m == Masked(email[h..n], email[..h] + Stars(n - h) + email[n..]);
    StarOut(email, h, n);
    SplitAround(email, h, n);
  }

  /** Cutting out `[lo, hi)` and putting it back gives the text. */
  lemma SplitAround(s: string, lo: nat, hi: nat)
    requires lo <= hi <= |s|
    ensures s == s[..lo] + s[lo..hi] + s[hi..]
  {
  }

  /** Starring out `[lo, hi)` keeps the length and every other character. */
  lemma StarOut(s: string, lo: nat, hi: nat)
    requires lo <= hi <= |s|
    ensures var t := s[..lo] + Stars(hi - lo) + s[hi..];
      && |t| == |s|
      && forall k :: 0 <= k < |s| ==> t[k] == if lo <= k < hi then '*' else s[k]
  {
    var stars := Stars(hi - lo);
    var t := s[..lo] + stars + s[hi..];
    forall k | 0 <= k < |s|
      ensures t[k] == if lo <= k < hi then '*' else s[k]
    {
      if k < lo {
        assert t[k] == s[..lo][k];
      } else if k < hi {
        assert t[k] == stars[k - lo];
      } else {
        assert t[k] == s[hi..][k - hi];
      }
    }
  }

  // ---------------------------------------------------------------------------
  // Login, phase one: confirm the address

  datatype Identity = Cancelled | Rejected | Confirmed(linesRead: nat)

  /** The first loop of `is_accepted_login` from try `tries` on; the `k`-th
      line read is `LineAt(stdin, k)`. */
  function IdentityFrom(email: string, shadowed: string, stdin: seq<ReadLine>, tries: nat): (r: Identity)
    requires tries <= 3
    ensures r.Confirmed? ==> tries < r.linesRead <= 3
    decreases 3 - tries
  {
    if tries == 3 then Rejected
    else
      match LineAt(stdin, tries)
      case ReadFailed => Cancelled
      case Got(text) =>
        var input := TrimEnd(text);
        if input == [] then Cancelled
        else if input == shadowed || input == email then Confirmed(tries + 1)
        else IdentityFrom(email, shadowed, stdin, tries + 1)
  }

  /** Line `k` answers the address prompt wrongly: non-empty, and neither
      the hidden part nor the whole address. */
  predicate WrongIdentity(email: string, shadowed: string, stdin: seq<ReadLine>, k: nat) {
    && LineAt(stdin, k).Got?
    && TrimEnd(LineAt(stdin, k).text) != []
    && TrimEnd(LineAt(stdin, k).text) != shadowed
    && TrimEnd(LineAt(stdin, k).text) != email
  }

  /** The address is confirmed only by a line that is the hidden part or
      the whole address, after wrong answers only. */
  lemma {:induction false} IdentityConfirmedOnlyByAddress(email: string, shadowed: string, stdin: seq<ReadLine>, tries: nat)
    requires tries <= 3 && IdentityFrom(email, shadowed, stdin, tries).Confirmed?
    ensures var k := IdentityFrom(email, shadowed, stdin, tries).linesRead - 1;
      && LineAt(stdin, k).Got?
      && (TrimEnd(LineAt(stdin, k).text) == shadowed || TrimEnd(LineAt(stdin, k).text) == email)
      && forall j :: tries <= j < k ==> WrongIdentity(email, shadowed, stdin, j)
    decreases 3 - tries
  {
    var input := TrimEnd(LineAt(stdin, tries).text);
    if !(input == shadowed || input == email) {
      var id := IdentityFrom(email, shadowed, stdin, tries + 1);
      assert IdentityFrom(email, shadowed, stdin, tries) == id;
      IdentityConfirmedOnlyByAddress(email, shadowed, stdin, tries + 1);
      assert WrongIdentity(email, shadowed, stdin, tries);
    }
  }

  /** The converse: after wrong answers only, a line that is the hidden
      part or the whole address confirms it, and the code phase starts at
      the next line. */
  lemma {:induction false} AddressConfirms(email: string, shadowed: string, stdin: seq<ReadLine>, tries: nat, k: nat)
    requires tries <= k < 3
    requires forall j :: tries <= j < k ==> WrongIdentity(email, shadowed, stdin, j)
    requires LineAt(stdin, k).Got? && TrimEnd(LineAt(stdin, k).text) != []
    requires TrimEnd(LineAt(stdin, k).text) == shadowed || TrimEnd(LineAt(stdin, k).text) == email
    ensures IdentityFrom(email, shadowed, stdin, tries) == Confirmed(k + 1)
    decreases k - tries
  {
    if tries < k {
      assert WrongIdentity(email, shadowed, stdin, tries);
      AddressConfirms(email, shadowed, stdin, tries + 1, k);
    }
  }

  /** After wrong answers only, an empty line or a failed read cancels. */
  lemma {:induction false} EmptyAddressCancels(email: string, shadowed: string, stdin: seq<ReadLine>, tries: nat, k: nat)
    requires tries <= k < 3
    requires forall j :: tries <= j < k ==> WrongIdentity(email, shadowed, stdin, j)
    requires LineAt(stdin, k).ReadFailed? || TrimEnd(LineAt(stdin, k).text) == []
    ensures IdentityFrom(email, shadowed, stdin, tries) == Cancelled
    decreases k - tries
  {
    if tries < k {
      assert WrongIdentity(email, shadowed, stdin, tries);
      EmptyAddressCancels(email, shadowed, stdin, tries + 1, k);
    }
  }

  /** Three wrong answers reject. */
  lemma {:induction false} ThreeWrongIdentitiesReject(email: string, shadowed: string, stdin: seq<ReadLine>, tries: nat)
    requires tries <= 3
    requires forall k :: tries <= k < 3 ==> WrongIdentity(email, shadowed, stdin, k)
    ensures IdentityFrom(email, shadowed, stdin, tries) == Rejected
    decreases 3 - tries
  {
    if tries < 3 {
      assert WrongIdentity(email, shadowed, stdin, tries);
      ThreeWrongIdentitiesReject(email, shadowed, stdin, tries + 1);
    }
  }

  // ---------------------------------------------------------------------------
  // Login, phase two: the mailed code

  /** The verdict of a login and how many mails it tried to send. */
  datatype EmailRun = EmailRun(decision: Decision, sends: nat)

  /** How the second loop takes one line: end of input or a read error,
      `0` (another mail), the code, or anything else. */
  datatype Reply = NoInput | AskAgain | RightCode | WrongAnswer

  function ReplyOf(code: nat, l: ReadLine): Reply {
    match l
    case ReadFailed => NoInput
    case Got(text) =>
      var input := ParseU32(TrimEnd(text));
      if input == Some(0) then AskAgain
      else if input == Some(code) then RightCode
      else WrongAnswer
  }

  /** The second loop of `is_accepted_login`: `line` is the next line of
      input, `tries` the wrong codes so far and `sends` the mails sent so
      far. A line that parses as `0` mails the code again without using up
      a try. */
  function CodeFrom(code: nat, stdin: seq<ReadLine>, mailOk: nat -> bool, line: nat, tries: nat, sends: nat): (r: EmailRun)
    requires tries <= 3
    ensures r.sends >= sends
    decreases if line < |stdin| then |stdin| - line else 0, 3 - tries
  {
    if tries == 3 then EmailRun(Some(false), sends)
    else
      match ReplyOf(code, LineAt(stdin, line))
      case NoInput => EmailRun(None, sends)
      case AskAgain =>
        if !mailOk(sends) then EmailRun(None, sends + 1)
        else CodeFrom(code, stdin, mailOk, line + 1, tries, sends + 1)
      case RightCode => EmailRun(Some(true), sends)
      case WrongAnswer => CodeFrom(code, stdin, mailOk, line + 1, tries + 1, sends)
  }

  /** `is_accepted_login` as a whole. */
  function LoginSpec(enabled: bool, email: Option<string>, code: nat, stdin: seq<ReadLine>, mailOk: nat -> bool): (r: EmailRun)
    requires enabled ==> email.Some?
    ensures !enabled ==> r == EmailRun(None, 0)
  {
    if !enabled then EmailRun(None, 0)
    else
      match MaskEmail(email.value)
      case None => EmailRun(None, 0)
      case Some(m) =>
        AfterIdentity(IdentityFrom(email.value, m.shadowed, stdin, 0), code, stdin, mailOk)
  }

  /** What follows the first loop: the first mail, then the code loop. */
  function AfterIdentity(id: Identity, code: nat, stdin: seq<ReadLine>, mailOk: nat -> bool): (r: EmailRun)
    ensures !id.Confirmed? ==> r.sends == 0
  {
    match id
    case Cancelled => EmailRun(None, 0)
    case Rejected => EmailRun(Some(false), 0)
    case Confirmed(next) =>
      if !mailOk(0) then EmailRun(None, 1)
      else CodeFrom(code, stdin, mailOk, next, 0, 1)
  }

  /** Line `k` holds the code. */
  predicate TypedCode(code: nat, stdin: seq<ReadLine>, k: nat) {
    LineAt(stdin, k).Got? && ParseU32(TrimEnd(LineAt(stdin, k).text)) == Some(code)
  }

  /** Line `k` is a code that is neither `0` nor the right one (unparsable
      text included). */
  predicate WrongCode(code: nat, stdin: seq<ReadLine>, k: nat) {
    LineAt(stdin, k).Got? && ParseU32(TrimEnd(LineAt(stdin, k).text)) !in {Some(0), Some(code)}
  }

  /** Three wrong codes in a row reject, without another mail. */
  lemma {:induction false} ThreeWrongCodesReject(code: nat, stdin: seq<ReadLine>, mailOk: nat -> bool, line: nat, tries: nat, sends: nat)
    requires tries <= 3
    requires forall k :: line <= k < line + 3 - tries ==> WrongCode(code, stdin, k)
    ensures CodeFrom(code, stdin, mailOk, line, tries, sends) == EmailRun(Some(false), sends)
    decreases 3 - tries
  {
    if tries < 3 {
      assert WrongCode(code, stdin, line);
      ThreeWrongCodesReject(code, stdin, mailOk, line + 1, tries + 1, sends);
    }
  }

  /** Line `k` parses as `0`, the request for another mail. */
  predicate AskedAgain(stdin: seq<ReadLine>, k: nat) {
    LineAt(stdin, k).Got? && ParseU32(TrimEnd(LineAt(stdin, k).text)) == Some(0)
  }

  /** The line `0` followed by a newline, as typed at the prompt, is such a
      request. */
  lemma ZeroAsksAgain(stdin: seq<ReadLine>, k: nat)
    requires LineAt(stdin, k) == Got("0\n")
    ensures AskedAgain(stdin, k)
  {
    assert TrimEnd("0\n") == "0";
    assert ParseU32("0") == Some(0);
  }

  /** Asking for the code again does not use up a try: after any number of
      lines that parse as `0` and whose mails went out, the right code is
      still accepted. */
  lemma {:induction false} ResendsThenCodeAccepts(code: nat, stdin: seq<ReadLine>, mailOk: nat -> bool,
                                                  line: nat, tries: nat, sends: nat, resends: nat)
    requires tries < 3 && code != 0
    requires forall k :: line <= k < line + resends ==> AskedAgain(stdin, k)
    requires forall k :: sends <= k < sends + resends ==> mailOk(k)
    requires LineAt(stdin, line + resends).Got? && ParseU32(TrimEnd(LineAt(stdin, line + resends).text)) == Some(code)
    ensures CodeFrom(code, stdin, mailOk, line, tries, sends) == EmailRun(Some(true), sends + resends)
    decreases resends
  {
    if resends > 0 {
      assert AskedAgain(stdin, line) && mailOk(sends);
      assert CodeFrom(code, stdin, mailOk, line, tries, sends) == CodeFrom(code, stdin, mailOk, line + 1, tries, sends + 1);
      ResendsThenCodeAccepts(code, stdin, mailOk, line + 1, tries, sends + 1, resends - 1);
    }
  }

  /** Login accepts only when some line held the code. */
  lemma {:induction false} CodeAcceptsOnlyTheCode(code: nat, stdin: seq<ReadLine>, mailOk: nat -> bool, line: nat, tries: nat, sends: nat)
    requires tries <= 3
    requires CodeFrom(code, stdin, mailOk, line, tries, sends).decision == Some(true)
    ensures exists j :: line <= j && TypedCode(code, stdin, j)
    decreases if line < |stdin| then |stdin| - line else 0, 3 - tries
  {
    var reply := ReplyOf(code, LineAt(stdin, line));
    if reply == RightCode {
      assert TypedCode(code, stdin, line);
    } else if reply == AskAgain {
      CodeAcceptsOnlyTheCode(code, stdin, mailOk, line + 1, tries, sends + 1);
    } else if reply == WrongAnswer {
      CodeAcceptsOnlyTheCode(code, stdin, mailOk, line + 1, tries + 1, sends);
    }
  }

  /** Another mail is sent only after the previous one went out: every
      send but the last succeeded. */
  lemma {:induction false} EarlierMailsSucceeded(code: nat, stdin: seq<ReadLine>, mailOk: nat -> bool, line: nat, tries: nat, sends: nat)
    requires tries <= 3
    ensures var r := CodeFrom(code, stdin, mailOk, line, tries, sends);
      forall j :: sends <= j < r.sends - 1 ==> mailOk(j)
    decreases if line < |stdin| then |stdin| - line else 0, 3 - tries
  {
    if tries < 3 {
      var reply := ReplyOf(code, LineAt(stdin, line));
      if reply == AskAgain && mailOk(sends) {
        var r := CodeFrom(code, stdin, mailOk, line + 1, tries, sends + 1);
        EarlierMailsSucceeded(code, stdin, mailOk, line + 1, tries, sends + 1);
        forall j | sends <= j < r.sends - 1 ensures mailOk(j) {
          if j > sends {
            assert sends + 1 <= j < r.sends - 1;
          }
        }
      } else if reply == WrongAnswer {
        EarlierMailsSucceeded(code, stdin, mailOk, line + 1, tries + 1, sends);
      }
    }
  }

  /** Mail trouble never rejects: the loop reaches a verdict only when
      every mail it sent went out. */
  lemma {:induction false} MailFailureCancels(code: nat, stdin: seq<ReadLine>, mailOk: nat -> bool, line: nat, tries: nat, sends: nat)
    requires tries <= 3
    ensures var r := CodeFrom(code, stdin, mailOk, line, tries, sends);
      r.decision != None ==> forall j :: sends <= j < r.sends ==> mailOk(j)
    decreases if line < |stdin| then |stdin| - line else 0, 3 - tries
  {
    if tries < 3 {
      var reply := ReplyOf(code, LineAt(stdin, line));
      if reply == AskAgain && mailOk(sends) {
        var r := CodeFrom(code, stdin, mailOk, line + 1, tries, sends + 1);
        MailFailureCancels(code, stdin, mailOk, line + 1, tries, sends + 1);
        if r.decision != None {
          forall j | sends <= j < r.sends ensures mailOk(j) {
            if j > sends {
              assert sends + 1 <= j < r.sends;
            }
          }
        }
      } else if reply == WrongAnswer {
        MailFailureCancels(code, stdin, mailOk, line + 1, tries + 1, sends);
      }
    }
  }

  /** The whole login: it accepts only when the address was confirmed and a
      later line held the code, and a failed mail never turns into a
      rejection. */
  lemma LoginAcceptsOnlyTheCode(enabled: bool, email: Option<string>, code: nat, stdin: seq<ReadLine>, mailOk: nat -> bool)
    requires enabled ==> email.Some?
    ensures LoginSpec(enabled, email, code, stdin, mailOk).decision == Some(true) ==>
      exists j :: TypedCode(code, stdin, j)
  {
    if enabled && MaskEmail(email.value).Some? {
      var m := MaskEmail(email.value).value;
      var id := IdentityFrom(email.value, m.shadowed, stdin, 0);
      if id.Confirmed? && mailOk(0) && CodeFrom(code, stdin, mailOk, id.linesRead, 0, 1).decision == Some(true) {
        CodeAcceptsOnlyTheCode(code, stdin, mailOk, id.linesRead, 0, 1);
      }
    }
  }

  /** The converse over the whole login: the address typed after wrong
      answers only, the first mail sent, any number of requests for another
      mail that went out, and then the code accept, with one mail per
      request plus the first. */
  lemma LoginAcceptsTheCode(email: string, code: nat, stdin: seq<ReadLine>, mailOk: nat -> bool, k: nat, resends: nat)
    requires '@' in email && code != 0 && k < 3
    requires forall j :: 0 <= j < k ==> WrongIdentity(email, MaskEmail(email).value.shadowed, stdin, j)
    requires LineAt(stdin, k).Got? && TrimEnd(LineAt(stdin, k).text) == email
    requires mailOk(0)
    requires forall j :: k + 1 <= j < k + 1 + resends ==> AskedAgain(stdin, j)
    requires forall j :: 1 <= j < 1 + resends ==> mailOk(j)
    requires TypedCode(code, stdin, k + 1 + resends)
    ensures LoginSpec(true, Some(email), code, stdin, mailOk) == EmailRun(Some(true), 1 + resends)
  {
    var m := MaskEmail(email).value;
    AddressConfirms(email, m.shadowed, stdin, 0, k);
    ResendsThenCodeAccepts(code, stdin, mailOk, k + 1, 0, 1, resends);
  }

  /** A failed mail never turns into a verdict of the whole login, and
      every mail but the last one went out. */
  lemma LoginMailFailureCancels(enabled: bool, email: Option<string>, code: nat, stdin: seq<ReadLine>, mailOk: nat -> bool)
    requires enabled ==> email.Some?
    ensures var r := LoginSpec(enabled, email, code, stdin, mailOk);
      r.decision != None ==> forall j :: 0 <= j < r.sends ==> mailOk(j)
    ensures var r := LoginSpec(enabled, email, code, stdin, mailOk);
      forall j :: 0 <= j < r.sends - 1 ==> mailOk(j)
  {
    if enabled && MaskEmail(email.value).Some? {
      var m := MaskEmail(email.value).value;
      AfterIdentityMail(IdentityFrom(email.value, m.shadowed, stdin, 0), code, stdin, mailOk);
    }
  }

  lemma AfterIdentityMail(id: Identity, code: nat, stdin: seq<ReadLine>, mailOk: nat -> bool)
    ensures var r := AfterIdentity(id, code, stdin, mailOk);
      r.decision != None ==> forall j :: 0 <= j < r.sends ==> mailOk(j)
    ensures var r := AfterIdentity(id, code, stdin, mailOk);
      forall j :: 0 <= j < r.sends - 1 ==> mailOk(j)
  {
    if id.Confirmed? && mailOk(0) {
      var r := CodeFrom(code, stdin, mailOk, id.linesRead, 0, 1);
      MailFailureCancels(code, stdin, mailOk, id.linesRead, 0, 1);
      EarlierMailsSucceeded(code, stdin, mailOk, id.linesRead, 0, 1);
      forall j | 0 <= j < r.sends - 1 ensures mailOk(j) {
        if j > 0 {
          assert 1 <= j < r.sends - 1;
        }
      }
      if r.decision != None {
        forall j | 0 <= j < r.sends ensures mailOk(j) {
          if j > 0 {
            assert 1 <= j < r.sends;
          }
        }
      }
    }
  }

  /** Three wrong address answers reject before any mail is sent. */
  lemma WrongAddressThriceRejectsWithoutMail(email: string, code: nat, stdin: seq<ReadLine>, mailOk: nat -> bool)
    requires '@' in email
    requires forall k :: 0 <= k < 3 ==> WrongIdentity(email, MaskEmail(email).value.shadowed, stdin, k)
    ensures LoginSpec(true, Some(email), code, stdin, mailOk) == EmailRun(Some(false), 0)
  {
    ThreeWrongIdentitiesReject(email, MaskEmail(email).value.shadowed, stdin, 0);
  }

  /** The first loop of `is_accepted_login`: up to three lines, each
      compared, without its trailing whitespace, with the hidden part and
      with the whole address. */
  method AskAddress(email: string, shadowed: string, stdin: seq<ReadLine>) returns (identity: Identity)
    ensures identity == IdentityFrom(email, shadowed, stdin, 0)
  {
    var tries: nat := 0;
    while tries < 3
      invariant tries <= 3
      invariant IdentityFrom(email, shadowed, stdin, tries) == IdentityFrom(email, shadowed, stdin, 0)
      decreases 3 - tries
    {
      var line := LineAt(stdin, tries);
      if line.ReadFailed? {
        return Cancelled;
      }
      var input := TrimEnd(line.text);
      if input == [] {
        return Cancelled;
      }
      tries := tries + 1;
      if input == shadowed || input == email {
        return Confirmed(tries);
      }
    }
    return Rejected;
  }

  /** The second loop of `is_accepted_login`, entered at line `start` once
      the first mail went out. A `0` gives the try back and mails again. */
  method AskCode(code: nat, stdin: seq<ReadLine>, mailOk: nat -> bool, start: nat) returns (r: Decision, sends: nat)
    ensures EmailRun(r, sends) == CodeFrom(code, stdin, mailOk, start, 0, 1)
  {
    var next := start;
    var tries: nat := 0;
    sends := 1;
    while tries < 3
      invariant tries <= 3
      invariant CodeFrom(code, stdin, mailOk, next, tries, sends) == CodeFrom(code, stdin, mailOk, start, 0, 1)
      decreases if next < |stdin| then |stdin| - next else 0, 3 - tries
    {
      var line := LineAt(stdin, next);
      next := next + 1;
      tries := tries + 1;
      if line.ReadFailed? {
        return None, sends;
      }
      var input := ParseU32(TrimEnd(line.text));
      if input == Some(0) {
        assert ReplyOf(code, line) == AskAgain;
        tries := tries - 1;
        var delivered := mailOk(sends);
        sends := sends + 1;
        if !delivered {
          return None, sends;
        }
      } else if input == Some(code) {
        assert ReplyOf(code, line) == RightCode;
        return Some(true), sends;
      } else {
        assert ReplyOf(code, line) == WrongAnswer;
      }
    }
    return Some(false), sends;
  }

  // ---------------------------------------------------------------------------
  // Exec mode: the code file

  /** The code file `<tmpdir>/sib_code`: it cannot be opened, it opens but
      cannot be read as text, or it holds `text`. */
  datatype FileState = Absent | Unreadable | Holds(text: string)

  /** The verdict, the command and the code file after one exec check. */
  datatype ExecStep = ExecStep(decision: Decision, cmd: string, file: FileState)

  /** `is_accepted_exec` as written. It never looks at `enabled`, which
      with an address configured is false exactly when the mail host, port
      or sender is missing; sending the code then aborts on the first
      missing one. `createOk` says whether creating the code file succeeds
      and `removeOk` whether deleting it does; both failures are only
      logged. When the file holds text and `cmd` is shorter than six
      characters, the log message slices `cmd[0..6]` and the process
      aborts. */
  function ExecAsWritten(email: Option<string>, enabled: bool, code: nat, file: FileState, cmd: string,
                         createOk: bool, removeOk: bool): (r: Panicking<ExecStep>)
    ensures r.Panics? <==>
      email.Some? && ((cmd == email.value && !enabled) || (cmd != email.value && file.Holds? && |cmd| < 6))
  {
    if email.None? then Returns(ExecStep(None, cmd, file))
    else if cmd == email.value then
      if !enabled then Panics("Bug: `config.mail_from` should not be `None` here")
      else Returns(ExecStep(Some(false), cmd, if createOk then Holds(NatToString(code)) else file))
    else
      match file
      case Absent => Returns(ExecStep(None, cmd, file))
      case Unreadable => Returns(ExecStep(None, cmd, file))
      case Holds(text) =>
        if |cmd| >= 6 && cmd[..6] == Trim(text) then
          Returns(ExecStep(Some(true), cmd[6..], if removeOk then Absent else file))
        else if |cmd| < 6 then Panics("byte index 6 is out of bounds")
        else Returns(ExecStep(None, cmd, file))
  }

  /** `is_accepted_exec` as intended: a disabled authenticator cancels, as
      it does at login, and a command shorter than six characters cannot
      start with the code, so the check cancels. */
  function ExecIntended(email: Option<string>, enabled: bool, code: nat, file: FileState, cmd: string,
                        createOk: bool, removeOk: bool): (r: ExecStep)
    ensures !enabled || email.None? ==> r == ExecStep(None, cmd, file)
    ensures enabled && email.Some? && cmd == email.value ==>
      r == ExecStep(Some(false), cmd, if createOk then Holds(NatToString(code)) else file)
    ensures r.decision == Some(false) <==> enabled && email.Some? && cmd == email.value
    ensures r.decision == Some(true) <==>
      (enabled && email.Some? && cmd != email.value && file.Holds? && |cmd| >= 6 && cmd[..6] == Trim(file.text))
    ensures r.decision == Some(true) ==> cmd == cmd[..6] + r.cmd && r.file == (if removeOk then Absent else file)
    ensures r.decision == None ==> r.cmd == cmd && r.file == file
  {
    if !enabled || email.None? then ExecStep(None, cmd, file)
    else if cmd == email.value then
      ExecStep(Some(false), cmd, if createOk then Holds(NatToString(code)) else file)
    else
      match file
      case Absent => ExecStep(None, cmd, file)
      case Unreadable => ExecStep(None, cmd, file)
      case Holds(text) =>
        if |cmd| >= 6 && cmd[..6] == Trim(text) then
          assert cmd == cmd[..6] + cmd[6..];
          ExecStep(Some(true), cmd[6..], if removeOk then Absent else file)
        else ExecStep(None, cmd, file)
  }

  /** For an enabled authenticator, the code as written and the intended one
      agree wherever the former does not abort. */
  lemma ExecAsWrittenAgrees(email: Option<string>, code: nat, file: FileState, cmd: string, createOk: bool, removeOk: bool)
    ensures ExecAsWritten(email, true, code, file, cmd, createOk, removeOk).Returns? ==>
      ExecAsWritten(email, true, code, file, cmd, createOk, removeOk).value ==
      ExecIntended(email, true, code, file, cmd, createOk, removeOk)
  {
  }

  /** The input that shows the first abort: a code is pending and the next
      exec login runs the two-letter command `ls`. */
  lemma ShortCommandAborts()
    ensures ExecAsWritten(Some("alice@example.com"), true, 123456, Holds("123456"), "ls", true, true).Panics?
    ensures ExecIntended(Some("alice@example.com"), true, 123456, Holds("123456"), "ls", true, true) == ExecStep(None, "ls", Holds("123456"))
  {
  }

  /** The input that shows the second abort: only the address is
      configured, so the authenticator is disabled, and the command is the
      address. The defaults leave the mail host and sender unset. */
  lemma DisabledAskAborts()
    ensures !EmailEnabled(Config.DefaultFields(None).(email := Some("alice@example.com")))
    ensures ExecAsWritten(Some("alice@example.com"), false, 123456, Absent, "alice@example.com", true, true).Panics?
    ensures ExecIntended(Some("alice@example.com"), false, 123456, Absent, "alice@example.com", true, true) ==
      ExecStep(None, "alice@example.com", Absent)
  {
  }

  /** The full exchange: asking with the address stores the code and
      refuses this session; the next session that starts its command with
      the code runs the rest of it and uses the code up. */
  lemma Handshake(email: string, draw: nat, rest: string, file: FileState)
    requires draw < 900000 && email != NatToString(GenCode(draw)) + rest
    ensures var code := GenCode(draw);
      var ask := ExecIntended(Some(email), true, code, file, email, true, true);
      var answer := ExecIntended(Some(email), true, code, ask.file, NatToString(code) + rest, true, true);
      && ask == ExecStep(Some(false), email, Holds(NatToString(code)))
      && answer == ExecStep(Some(true), rest, Absent)
  {
    var s := NatToString(GenCode(draw));
    assert NoWhitespace(s) by {
      forall k | 0 <= k < |s| ensures !IsWhitespace(s[k]) {
        assert IsDigit(s[k]);
      }
    }
    TrimOfNoWhitespace(s);
    assert (s + rest)[..6] == s;
    assert (s + rest)[6..] == rest;
  }

  /** A code is good once: replaying an accepted command, after the file was
      removed, cancels. */
  lemma ReplayCancels(email: Option<string>, enabled: bool, code: nat, file: FileState, cmd: string, createOk: bool)
    requires ExecIntended(email, enabled, code, file, cmd, createOk, true).decision == Some(true)
    ensures var after := ExecIntended(email, enabled, code, file, cmd, createOk, true).file;
      ExecIntended(email, enabled, code, after, cmd, createOk, true) == ExecStep(None, cmd, Absent)
  {
  }

  // ---------------------------------------------------------------------------
  // The authenticator object

  /** `EmailAuthenticator`: its configuration, whether it is enabled, the
      code drawn at start-up, and the code file it shares with later
      sessions. */
  class EmailAuthenticator {
    const email: Option<string>
    const enabled: bool
    const code: nat
    var codeFile: FileState

    predicate Valid() {
      (enabled ==> email.Some?) && 100000 <= code <= 999999
    }

    /** `init`, with the random draw and the code file found on disk. */
    constructor Init(cfg: Config.CfgFields, draw: nat, file: FileState)
      requires draw < 900000
      ensures Valid()
      ensures email == cfg.email && enabled == EmailEnabled(cfg) && code == GenCode(draw)
      ensures codeFile == file
    {
      email := cfg.email;
      enabled := EmailEnabled(cfg);
      code := GenCode(draw);
      codeFile := file;
    }

    /** `is_accepted_login`: mask the address, ask for it, send the first
        mail, then ask for the code. */
    method IsAcceptedLogin(stdin: seq<ReadLine>, mailOk: nat -> bool) returns (r: Decision, sends: nat)
      requires Valid()
      ensures EmailRun(r, sends) == LoginSpec(enabled, email, code, stdin, mailOk)
    {
      if !enabled {
        return None, 0;
      }
      var mask := MaskEmail(email.value);
      if mask.None? {
        return None, 0;
      }
      var identity := AskAddress(email.value, mask.value.shadowed, stdin);
      match identity
      case Cancelled =>
        return None, 0;
      case Rejected =>
        return Some(false), 0;
      case Confirmed(next) =>
        if !mailOk(0) {
          return None, 1;
        }
        r, sends := AskCode(code, stdin, mailOk, next);
    }

    /** `is_accepted_exec` as intended: a disabled authenticator and a short
        command cancel rather than aborting. It works on the code file this
        object holds. `cmd` comes back as
        `newCmd`. */
    method IsAcceptedExec(cmd: string, createOk: bool, removeOk: bool) returns (r: Decision, newCmd: string)
      modifies this
      ensures ExecStep(r, newCmd, codeFile) == ExecIntended(email, enabled, code, old(codeFile), cmd, createOk, removeOk)
    {
      newCmd := cmd;
      if !enabled || email.None? {
        return None, newCmd;
      }
      if cmd == email.value {
        if createOk {
          codeFile := Holds(NatToString(code));
        }
        return Some(false), newCmd;
      }
      match codeFile
      case Absent =>
        return None, newCmd;
      case Unreadable =>
        return None, newCmd;
      case Holds(text) =>
        var stored := Trim(text);
        if |cmd| >= 6 && cmd[..6] == stored {
          newCmd := cmd[6..];
          if removeOk {
            codeFile := Absent;
          }
          return Some(true), newCmd;
        }
        return None, newCmd;
    }
  }
}
