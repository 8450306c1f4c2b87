/** The time-based one-time password authenticator (src/auth_totp.rs). The
    code generator of RFC 6238 (HMAC over the step counter, the digit count
    and the base32 secret) belongs to a library and is an input here: a
    `Generator` says whether the secret decodes and which code belongs to
    each step counter. */
module AuthTotp {
  import opened Wrappers
  import opened Text
  import opened Console
  import opened Auth
  import Config

  // ---------------------------------------------------------------------------
  // Choosing the hash function

  datatype Hash = SHA1 | SHA256 | SHA512

  /** `char::to_ascii_uppercase`; on the ASCII characters the model deals
      in this is also what `str::to_uppercase` does. */
  function UpperAscii(c: char): char {
    if 'a' <= c <= 'z' then (c as int - 32) as char else c
  }

  function UpperAsciiString(s: string): (r: string)
    ensures |r| == |s| && forall k :: 0 <= k < |s| ==> r[k] == UpperAscii(s[k])
  {
    if s == [] then [] else [UpperAscii(s[0])] + UpperAsciiString(s[1..])
  }

  /** The branch chain of `init` that picks the hash: SHA1 unless the name
      starts with "SHA" in any case and ends in "512" or "256". A name
      shorter than three characters cannot be sliced and aborts. */
  function ChooseHash(totpHash: Option<string>): (r: Panicking<Hash>)
    ensures totpHash.None? ==> r == Returns(SHA1)
    ensures r.Panics? <==> totpHash.Some? && |totpHash.value| < 3
    ensures r == Returns(SHA512) ==> UpperAsciiString(totpHash.value[..3]) == "SHA"
    ensures r == Returns(SHA256) ==> UpperAsciiString(totpHash.value[..3]) == "SHA"
    ensures totpHash.Some? && |totpHash.value| >= 3 && UpperAsciiString(totpHash.value[..3]) == "SHA" ==>
      var suffix := totpHash.value[|totpHash.value| - 3..];
      && (suffix == "512" ==> r == Returns(SHA512))
      && (suffix == "256" ==> r == Returns(SHA256))
      && (suffix != "512" && suffix != "256" ==> r == Returns(SHA1))
    ensures totpHash.Some? && |totpHash.value| >= 3 && UpperAsciiString(totpHash.value[..3]) != "SHA" ==>
      r == Returns(SHA1)
  {
    match totpHash
    case None => Returns(SHA1)
    case Some(name) =>
      if |name| < 3 then Panics("byte index 3 is out of range")
      else if UpperAsciiString(name[..3]) != "SHA" then Returns(SHA1)
      else if name[|name| - 3..] == "512" then Returns(SHA512)
      else if name[|name| - 3..] == "256" then Returns(SHA256)
      else Returns(SHA1)
  }

  /** The canonical names of the three hashes. */
  function HashName(h: Hash): string {
    match h
    case SHA1 => "SHA1"
    case SHA256 => "SHA256"
    case SHA512 => "SHA512"
  }

  /** Every hash is chosen by its own name, in upper or lower case. */
  lemma ChooseHashByName(h: Hash)
    ensures ChooseHash(Some(HashName(h))) == Returns(h)
    ensures ChooseHash(Some(LowerName(h))) == Returns(h)
  {
    assert HashName(h)[..3] == "SHA";
    assert UpperAsciiString(LowerName(h)[..3]) == "SHA" by {
      assert LowerName(h)[..3] == "sha";
    }
  }

  function LowerName(h: Hash): string {
    match h
    case SHA1 => "sha1"
    case SHA256 => "sha256"
    case SHA512 => "sha512"
  }

  /** The prefix is checked before the suffix: whatever it ends in, a name
      that does not start with "SHA" keeps SHA1. */
  lemma PrefixCheckedFirst(name: string)
    requires |name| >= 3 && UpperAsciiString(name[..3]) != "SHA"
    ensures ChooseHash(Some(name)) == Returns(SHA1)
  {
  }

  // ---------------------------------------------------------------------------
  // The authenticator

  /** The code generator of the configured secret: whether the base32 secret
      decodes, and the code of each step counter. */
  datatype Generator = Generator(secretDecodes: bool, codeAt: int -> string)

  /** `TotpAuthenticator` after `init`, with the two configured numbers its
      methods read. */
  datatype Totp = Totp(enabled: bool, hashtype: Hash, digits: nat, step: nat)

  /** `init`: enabled exactly when a secret is configured. The digit count
      and the time step are read with `expect` in the source; the defaults
      set both and loading a file never removes them. */
  function Init(cfg: Config.CfgFields): (r: Panicking<Totp>)
    requires cfg.totpDigits.Some? && cfg.totpTimestep.Some?
    ensures r.Panics? <==> ChooseHash(cfg.totpHash).Panics?
    ensures r.Returns? ==> r.value.enabled == cfg.totpSecret.Some?
    ensures r.Returns? ==> r.value.hashtype == ChooseHash(cfg.totpHash).value
  {
    match ChooseHash(cfg.totpHash)
    case Panics(why) => Panics(why)
    case Returns(h) => Returns(Totp(cfg.totpSecret.Some?, h, cfg.totpDigits.value, cfg.totpTimestep.value))
  }

  /** The code the generator gives at a moment: the code of the step
      counter that moment falls in. */
  function CodeOfMoment(codeAt: int -> string, step: nat, moment: int): string
    requires step > 0
  {
    codeAt(moment / step)
  }

  /** The reference meaning of a match under a one-step skew (RFC 6238,
      section 4, with the tolerance of section 5.2): the code is the one
      of some moment at most one time step away from now. */
  predicate AcceptableAt(codeAt: int -> string, step: nat, now: nat, code: string)
    requires step > 0
  {
    exists moment :: now - step <= moment <= now + step && CodeOfMoment(codeAt, step, moment) == code
  }

  /** `compare_code`: `now` is the clock reading, `None` when the system
      time is unavailable. The library compares the typed text with the
      codes of the previous, the current and the next step counter. */
  function CompareCode(t: Totp, g: Generator, code: string, now: Option<nat>): (r: Panicking<Decision>)
    ensures !g.secretDecodes || now.None? ==> r == Returns(None)
    ensures r.Panics? <==> g.secretDecodes && now.Some? && t.step == 0
    ensures r.Returns? && r.value.Some? <==> g.secretDecodes && now.Some? && t.step > 0
    ensures r.Returns? && r.value.Some? && now.value >= t.step ==>
      (r.value.value <==> AcceptableAt(g.codeAt, t.step, now.value, code))
  {
    if !g.secretDecodes then Returns(None)
    else if now.None? then Returns(None)
    else if t.step == 0 then Panics("attempt to divide by zero")
    else
      var counter := now.value / t.step;
      var matched := g.codeAt(counter - 1) == code || g.codeAt(counter) == code || g.codeAt(counter + 1) == code;
      if now.value >= t.step then
        WindowIsOneStepEitherWay(g.codeAt, t.step, now.value, code);
        Returns(Some(matched))
      else Returns(Some(matched))
  }

  /** The three step counters the library tries are exactly the counters of
      the moments at most one step away from now. */
  lemma WindowIsOneStepEitherWay(codeAt: int -> string, step: nat, now: nat, code: string)
    requires step > 0 && now >= step
    ensures var c := now / step;
      (codeAt(c - 1) == code || codeAt(c) == code || codeAt(c + 1) == code)
      <==> AcceptableAt(codeAt, step, now, code)
  {
    WindowCodesAreAcceptable(codeAt, step, now, code);
    AcceptableIsInWindow(codeAt, step, now, code);
  }

  lemma WindowCodesAreAcceptable(codeAt: int -> string, step: nat, now: nat, code: string)
    requires step > 0 && now >= step
    ensures var c := now / step;
      (codeAt(c - 1) == code || codeAt(c) == code || codeAt(c + 1) == code) ==> AcceptableAt(codeAt, step, now, code)
  {
    var c := now / step;
    DivShift(now, step);
    if codeAt(c - 1) == code {
      assert CodeOfMoment(codeAt, step, now - step) == code;
    } else if codeAt(c) == code {
      assert CodeOfMoment(codeAt, step, now) == code;
    } else if codeAt(c + 1) == code {
      assert CodeOfMoment(codeAt, step, now + step) == code;
    }
  }

  lemma AcceptableIsInWindow(codeAt: int -> string, step: nat, now: nat, code: string)
    requires step > 0 && now >= step
    ensures var c := now / step;
      AcceptableAt(codeAt, step, now, code) ==> (codeAt(c - 1) == code || codeAt(c) == code || codeAt(c + 1) == code)
  {
    if AcceptableAt(codeAt, step, now, code) {
      var moment :| now - step <= moment <= now + step && CodeOfMoment(codeAt, step, moment) == code;
      DivShift(now, step);
      DivMonotone(now - step, moment, step);
      DivMonotone(moment, now + step, step);
      var q, c := moment / step, now / step;
      assert codeAt(q) == code;
      assert q == c - 1 || q == c || q == c + 1;
    }
  }

  lemma MulMonotone(a: int, b: int, step: int)
    requires step > 0 && a <= b
    ensures a * step <= b * step
  {
    assert b * step - a * step == (b - a) * step;
  }

  /** Division by a positive step is determined by quotient and remainder. */
  lemma DivUnique(x: int, step: int, q: int, m: int)
    requires step > 0 && 0 <= m < step && x == q * step + m
    ensures x / step == q
  {
    var q', m' := x / step, x % step;
    assert x == q' * step + m';
    if q' > q {
      MulMonotone(q + 1, q', step);
    } else if q' < q {
      MulMonotone(q' + 1, q, step);
    }
  }

  /** Moving one step forward or back moves the step counter by one. */
  lemma DivShift(now: nat, step: nat)
    requires step > 0 && now >= step
    ensures (now - step) / step == now / step - 1
    ensures (now + step) / step == now / step + 1
  {
    var c, m := now / step, now % step;
    assert now == c * step + m;
    DivUnique(now - step, step, c - 1, m);
    DivUnique(now + step, step, c + 1, m);
  }

  lemma DivMonotone(a: int, b: int, step: nat)
    requires step > 0 && 0 <= a <= b
    ensures a / step <= b / step
  {
    var qa, qb := a / step, b / step;
    assert a == qa * step + a % step;
    assert b == qb * step + b % step;
    if qa > qb {
      MulMonotone(qb + 1, qa, step);
    }
  }

  // ---------------------------------------------------------------------------
  // Login: up to three prompts

  /** What `is_accepted_login` decides from try `tries` on. The `k`-th line
      read is `LineAt(stdin, k)` and the `k`-th code comparison reads the
      clock `clock(k)`. */
  function LoginFrom(t: Totp, g: Generator, stdin: seq<ReadLine>, clock: nat -> Option<nat>, tries: nat): Panicking<Decision>
    requires tries <= 3
    decreases 3 - tries
  {
    if tries == 3 then Returns(Some(false))
    else
      match LineAt(stdin, tries)
      case ReadFailed => Returns(None)
      case Got(text) =>
        var input := Trim(text);
        if input == [] then Returns(None)
        else
          match CompareCode(t, g, input, clock(tries))
          case Panics(why) => Panics(why)
          case Returns(None) => Returns(None)
          case Returns(Some(true)) => Returns(Some(true))
          case Returns(Some(false)) => LoginFrom(t, g, stdin, clock, tries + 1)
  }

  function LoginSpec(t: Totp, g: Generator, stdin: seq<ReadLine>, clock: nat -> Option<nat>): Panicking<Decision> {
    if t.enabled then LoginFrom(t, g, stdin, clock, 0) else Returns(None)
  }

  /** `is_accepted_login`: the prompt loop with its try counter. */
  method IsAcceptedLogin(t: Totp, g: Generator, stdin: seq<ReadLine>, clock: nat -> Option<nat>) returns (r: Panicking<Decision>)
    ensures r == LoginSpec(t, g, stdin, clock)
  {
    if !t.enabled {
      return Returns(None);
    }
    var tries: nat := 0;
    while tries < 3
      invariant tries <= 3
      invariant LoginFrom(t, g, stdin, clock, tries) == LoginSpec(t, g, stdin, clock)
      decreases 3 - tries
    {
      var line := LineAt(stdin, tries);
      if line.ReadFailed? {
        return Returns(None);
      }
      var input := Trim(line.text);
      if input == [] {
        return Returns(None);
      }
      var verdict := CompareCode(t, g, input, clock(tries));
      if verdict.Panics? {
        return Panics(verdict.reason);
      }
      if verdict.value.None? {
        return Returns(None);
      }
      if verdict.value.value {
        return Returns(Some(true));
      }
      tries := tries + 1;
    }
    return Returns(Some(false));
  }

  /** Prompt `k` held a non-empty line whose code the comparison accepted. */
  predicate TypedValidCode(t: Totp, g: Generator, stdin: seq<ReadLine>, clock: nat -> Option<nat>, k: nat) {
    && LineAt(stdin, k).Got?
    && Trim(LineAt(stdin, k).text) != []
    && CompareCode(t, g, Trim(LineAt(stdin, k).text), clock(k)) == Returns(Some(true))
  }

  /** Prompt `k` held a non-empty line whose code the comparison refused. */
  predicate TypedWrongCode(t: Totp, g: Generator, stdin: seq<ReadLine>, clock: nat -> Option<nat>, k: nat) {
    && LineAt(stdin, k).Got?
    && Trim(LineAt(stdin, k).text) != []
    && CompareCode(t, g, Trim(LineAt(stdin, k).text), clock(k)) == Returns(Some(false))
  }

  /** Login accepts only when one of the first three lines was a valid code,
      and every line before it a wrong one. */
  lemma {:induction false} LoginAcceptsOnlyValidCode(t: Totp, g: Generator, stdin: seq<ReadLine>, clock: nat -> Option<nat>, tries: nat)
    requires tries <= 3
    requires LoginFrom(t, g, stdin, clock, tries) == Returns(Some(true))
    ensures exists k :: (tries <= k < 3 && TypedValidCode(t, g, stdin, clock, k) &&
      forall j :: tries <= j < k ==> TypedWrongCode(t, g, stdin, clock, j))
    decreases 3 - tries
  {
    var text := LineAt(stdin, tries).text;
    var verdict := CompareCode(t, g, Trim(text), clock(tries));
    if verdict == Returns(Some(true)) {
      assert TypedValidCode(t, g, stdin, clock, tries);
    } else {
      assert TypedWrongCode(t, g, stdin, clock, tries);
      LoginAcceptsOnlyValidCode(t, g, stdin, clock, tries + 1);
      var k :| tries + 1 <= k < 3 && TypedValidCode(t, g, stdin, clock, k)
        && forall j :: tries + 1 <= j < k ==> TypedWrongCode(t, g, stdin, clock, j);
      assert forall j :: tries <= j < k ==> TypedWrongCode(t, g, stdin, clock, j);
    }
  }

  /** The converse: after wrong codes only, the first comparison that does
      not refuse decides the login. An accepted code accepts, a comparison
      that cannot be made cancels at once, and an abort aborts. */
  lemma {:induction false} FirstDecidingCodeDecides(t: Totp, g: Generator, stdin: seq<ReadLine>, clock: nat -> Option<nat>,
                                                    tries: nat, k: nat)
    requires tries <= k < 3
    requires forall j :: tries <= j < k ==> TypedWrongCode(t, g, stdin, clock, j)
    requires LineAt(stdin, k).Got? && Trim(LineAt(stdin, k).text) != []
    requires CompareCode(t, g, Trim(LineAt(stdin, k).text), clock(k)) != Returns(Some(false))
    ensures LoginFrom(t, g, stdin, clock, tries) == CompareCode(t, g, Trim(LineAt(stdin, k).text), clock(k))
    decreases k - tries
  {
    if tries < k {
      assert TypedWrongCode(t, g, stdin, clock, tries);
      FirstDecidingCodeDecides(t, g, stdin, clock, tries + 1, k);
    }
  }

  /** Three wrong codes in a row reject. */
  lemma {:induction false} ThreeWrongCodesReject(t: Totp, g: Generator, stdin: seq<ReadLine>, clock: nat -> Option<nat>, tries: nat)
    requires tries <= 3
    requires forall k :: tries <= k < 3 ==> TypedWrongCode(t, g, stdin, clock, k)
    ensures LoginFrom(t, g, stdin, clock, tries) == Returns(Some(false))
    decreases 3 - tries
  {
    if tries < 3 {
      assert TypedWrongCode(t, g, stdin, clock, tries);
      ThreeWrongCodesReject(t, g, stdin, clock, tries + 1);
    }
  }

  /** A line that is empty once trimmed, or a failed read, cancels at
      whichever prompt it comes, after any number of wrong codes: pressing
      Enter skips this authenticator. */
  lemma {:induction false} EmptyLineCancels(t: Totp, g: Generator, stdin: seq<ReadLine>, clock: nat -> Option<nat>,
                                            tries: nat, k: nat)
    requires tries <= k < 3
    requires forall j :: tries <= j < k ==> TypedWrongCode(t, g, stdin, clock, j)
    requires LineAt(stdin, k).ReadFailed? || Trim(LineAt(stdin, k).text) == []
    ensures LoginFrom(t, g, stdin, clock, tries) == Returns(None)
    decreases k - tries
  {
    if tries < k {
      assert TypedWrongCode(t, g, stdin, clock, tries);
      EmptyLineCancels(t, g, stdin, clock, tries + 1, k);
    }
  }

  /** Only the first three lines matter: login reads no further. */
  lemma {:induction false} LoginReadsAtMostThreeLines(t: Totp, g: Generator, stdin: seq<ReadLine>, other: seq<ReadLine>,
                                                      clock: nat -> Option<nat>, tries: nat)
    requires tries <= 3
    requires forall k :: 0 <= k < 3 ==> LineAt(stdin, k) == LineAt(other, k)
    ensures LoginFrom(t, g, stdin, clock, tries) == LoginFrom(t, g, other, clock, tries)
    decreases 3 - tries
  {
    if tries < 3 {
      LoginReadsAtMostThreeLines(t, g, stdin, other, clock, tries + 1);
    }
  }

  // ---------------------------------------------------------------------------
  // Exec: the code is the head of the `-c` command

  /** `is_accepted_exec`: the first `digits` characters of `cmd` are the
      code; on a match they are cut off and the rest is the command to run.
      `now` is the clock reading of the one comparison. */
  function IsAcceptedExec(t: Totp, g: Generator, cmd: string, now: Option<nat>): (r: Panicking<Exec>)
    ensures !t.enabled || |cmd| < t.digits ==> r == Returns(Exec(None, cmd))
    ensures r.Returns? ==> r.value.decision != Some(false)
    ensures r.Returns? && r.value.decision == Some(true) <==>
      t.enabled && |cmd| >= t.digits && CompareCode(t, g, cmd[..t.digits], now) == Returns(Some(true))
    ensures r.Returns? && r.value.decision == Some(true) ==> cmd == cmd[..t.digits] + r.value.cmd
    ensures r.Returns? && r.value.decision == None ==> r.value.cmd == cmd
  {
    if !t.enabled || |cmd| < t.digits then Returns(Exec(None, cmd))
    else
      match CompareCode(t, g, cmd[..t.digits], now)
      case Panics(why) => Panics(why)
      case Returns(Some(true)) => Returns(Exec(Some(true), cmd[t.digits..]))
      case Returns(_) => Returns(Exec(None, cmd))
  }

  /** Splicing: a valid code in front of any command yields exactly that
      command. */
  lemma ExecStripsExactlyTheCode(t: Totp, g: Generator, code: string, rest: string, now: nat)
    requires t.enabled && |code| == t.digits && t.step > 0 && g.secretDecodes && now >= t.step
    requires AcceptableAt(g.codeAt, t.step, now, code)
    ensures IsAcceptedExec(t, g, code + rest, Some(now)) == Returns(Exec(Some(true), rest))
  {
    assert (code + rest)[..t.digits] == code;
    assert (code + rest)[t.digits..] == rest;
  }
}
