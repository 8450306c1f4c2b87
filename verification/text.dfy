/** The pieces of Rust's `str` API the authenticators rely on: whitespace
    trimming and splitting, `split("\r\n")`, `split_once`, `rfind`, decimal
    formatting of integers and `u32::from_str`. A string is a sequence of
    characters, one character per byte of the Rust string. */
module Text {
  import opened Wrappers

  // ---------------------------------------------------------------------------
  // Whitespace

  /** Rust's `char::is_whitespace`: the Unicode White_Space property. */
  predicate IsWhitespace(c: char) {
    c == ' ' || ('\t' <= c <= '\r') || c == '\U{85}' || c == '\U{A0}' || c == '\U{1680}'
    || ('\U{2000}' <= c <= '\U{200A}') || c == '\U{2028}' || c == '\U{2029}'
    || c == '\U{202F}' || c == '\U{205F}' || c == '\U{3000}'
  }

  predicate NoWhitespace(s: string) {
    forall k :: 0 <= k < |s| ==> !IsWhitespace(s[k])
  }

  /** `str::trim_end`: drop the trailing whitespace. */
  function TrimEnd(s: string): string
  {
    if |s| > 0 && IsWhitespace(s[|s| - 1]) then TrimEnd(s[..|s| - 1]) else s
  }

  /** What `trim_end` keeps is a prefix that ends in a non-whitespace
      character, and what it drops is all whitespace. */
  lemma {:induction false} TrimEndDropsTrailingWhitespace(s: string)
    ensures var r := TrimEnd(s);
      && |r| <= |s| && r == s[..|r|]
      && (r == [] || !IsWhitespace(r[|r| - 1]))
      && forall k :: |r| <= k < |s| ==> IsWhitespace(s[k])
  {
    if |s| > 0 && IsWhitespace(s[|s| - 1]) {
      TrimEndDropsTrailingWhitespace(s[..|s| - 1]);
    }
  }

  /** `str::trim_start`: drop the leading whitespace. */
  function TrimStart(s: string): string
  {
    if |s| > 0 && IsWhitespace(s[0]) then TrimStart(s[1..]) else s
  }

  /** What `trim_start` keeps is a suffix that starts with a non-whitespace
      character, and what it drops is all whitespace. */
  lemma TrimStartDropsLeadingWhitespace(s: string)
    ensures var r := TrimStart(s);
      && |r| <= |s| && r == s[|s| - |r|..]
      && (r == [] || !IsWhitespace(r[0]))
      && forall k :: 0 <= k < |s| - |r| ==> IsWhitespace(s[k])
  {
    TrimStartIsSuffix(s);
    TrimStartStartsWithText(s);
    TrimStartDropsWhitespace(s);
  }

  lemma {:induction false} TrimStartIsSuffix(s: string)
    ensures |TrimStart(s)| <= |s| && TrimStart(s) == s[|s| - |TrimStart(s)|..]
  {
    if |s| > 0 && IsWhitespace(s[0]) {
      TrimStartIsSuffix(s[1..]);
      var r := TrimStart(s);
      assert s[1..][|s| - 1 - |r|..] == s[|s| - |r|..];
    }
  }

  lemma {:induction false} TrimStartStartsWithText(s: string)
    ensures TrimStart(s) == [] || !IsWhitespace(TrimStart(s)[0])
  {
    if |s| > 0 && IsWhitespace(s[0]) {
      TrimStartStartsWithText(s[1..]);
    }
  }

  lemma {:induction false} TrimStartDropsWhitespace(s: string)
    ensures forall k :: 0 <= k < |s| - |TrimStart(s)| ==> IsWhitespace(s[k])
  {
    if |s| > 0 && IsWhitespace(s[0]) {
      TrimStartDropsWhitespace(s[1..]);
      var d := |s| - |TrimStart(s)|;
      forall k | 0 <= k < d ensures IsWhitespace(s[k]) {
        if k > 0 {
          assert s[k] == s[1..][k - 1];
        }
      }
    }
  }

  /** `str::trim`: drop whitespace at both ends. */
  function Trim(s: string): string {
    TrimStart(TrimEnd(s))
  }

  /** What `trim` keeps starts and ends with a non-whitespace character,
      and it keeps nothing exactly when the text is all whitespace. */
  lemma TrimKeepsTheText(s: string)
    ensures var r := Trim(s);
      && (r == [] || (!IsWhitespace(r[0]) && !IsWhitespace(r[|r| - 1])))
      && (r == [] <==> forall k :: 0 <= k < |s| ==> IsWhitespace(s[k]))
  {
    var e := TrimEnd(s);
    var r := TrimStart(e);
    TrimEndDropsTrailingWhitespace(s);
    TrimStartDropsLeadingWhitespace(e);
    if r != [] {
      assert r[|r| - 1] == e[|e| - 1];
    }
    if e != [] {
      assert !IsWhitespace(e[|e| - 1]) && e[|e| - 1] == s[|e| - 1];
    } else {
      assert forall k :: 0 <= k < |s| ==> IsWhitespace(s[k]);
    }
  }

  lemma TrimOfNoWhitespace(s: string)
    requires NoWhitespace(s)
    ensures Trim(s) == s && TrimEnd(s) == s
  {
    TrimEndDropsTrailingWhitespace(s);
    TrimStartDropsLeadingWhitespace(s);
  }

  /** Number of leading characters that are not whitespace. */
  function WordLength(s: string): (n: nat)
    ensures n <= |s|
    ensures NoWhitespace(s[..n])
    ensures n == |s| || IsWhitespace(s[n])
  {
    if |s| == 0 || IsWhitespace(s[0]) then 0
    else
      var m := WordLength(s[1..]);
      assert s[..m + 1] == [s[0]] + s[1..][..m];
      m + 1
  }

  /** `str::split_whitespace`: the maximal runs of non-whitespace characters, in order. */
  function SplitWhitespace(s: string): (tokens: seq<string>)
    ensures forall t :: t in tokens ==> |t| > 0 && NoWhitespace(t)
    ensures tokens == [] <==> forall k :: 0 <= k < |s| ==> IsWhitespace(s[k])
    decreases |s|
  {
    if |s| == 0 then []
    else if IsWhitespace(s[0]) then
      var rest := SplitWhitespace(s[1..]);
      assert forall k :: 1 <= k < |s| ==> s[k] == s[1..][k - 1];
      rest
    else
      var n := WordLength(s);
      [s[..n]] + SplitWhitespace(s[n..])
  }

  /** The first token is the leading word: the non-whitespace run that starts
      where the leading whitespace ends. */
  lemma {:induction false} FirstTokenIsLeadingWord(v: string)
    requires SplitWhitespace(v) != []
    ensures SplitWhitespace(v)[0] == TrimStart(v)[..WordLength(TrimStart(v))]
    decreases |v|
  {
    if IsWhitespace(v[0]) {
      FirstTokenIsLeadingWord(v[1..]);
    }
  }

  // ---------------------------------------------------------------------------
  // Searching and splitting

  /** Index of the first occurrence of `c` (`str::find` on a char). */
  function FindFirst(s: string, c: char): (r: Option<nat>)
    ensures r.None? <==> c !in s
    ensures r.Some? ==> r.value < |s| && s[r.value] == c && c !in s[..r.value]
  {
    if |s| == 0 then None
    else if s[0] == c then Some(0)
    else
      match FindFirst(s[1..], c)
      case None => None
      case Some(i) =>
        assert s[..i + 1] == [s[0]] + s[1..][..i];
        Some(i + 1)
  }

  /** Index of the last occurrence of `c` (`str::rfind` on a char). */
  function FindLast(s: string, c: char): (r: Option<nat>)
    ensures r.None? <==> c !in s
    ensures r.Some? ==> r.value < |s| && s[r.value] == c && c !in s[r.value + 1..]
  {
    if |s| == 0 then None
    else if s[|s| - 1] == c then Some(|s| - 1)
    else
      var r := FindLast(s[..|s| - 1], c);
      assert r.Some? ==> s[r.value + 1..] == s[..|s| - 1][r.value + 1..] + [s[|s| - 1]];
      assert r.None? ==> s == s[..|s| - 1] + [s[|s| - 1]];
      r
  }

  /** `str::split_once(c)`: the text before and after the first `c`. */
  function SplitOnce(s: string, c: char): (r: Option<(string, string)>)
    ensures r.None? <==> c !in s
    ensures r.Some? ==> c !in r.value.0 && s == r.value.0 + [c] + r.value.1
  {
    match FindFirst(s, c)
    case None => None
    case Some(i) =>
      assert s == s[..i] + [c] + s[i + 1..];
      Some((s[..i], s[i + 1..]))
  }

  /** Splitting at the first separator recovers the key whatever the value holds. */
  lemma SplitOnceAtFirst(key: string, c: char, value: string)
    requires c !in key
    ensures SplitOnce(key + [c] + value, c) == Some((key, value))
  {
    var s := key + [c] + value;
    assert s[|key|] == c;
    assert forall j :: 0 <= j < |key| ==> s[j] == key[j];
    var i := FindFirst(s, c).value;
    assert i == |key|;
    assert s[..i] == key;
    assert s[i + 1..] == value;
  }

  predicate CrlfAt(s: string, i: int) {
    0 <= i && i + 1 < |s| && s[i] == '\r' && s[i + 1] == '\n'
  }

  /** `str::split("\r\n")`: the pieces between occurrences of CR LF; never
      empty. */
  function SplitCrlf(s: string): (parts: seq<string>)
    ensures |parts| >= 1
  {
    SplitCrlfFrom(s, "")
  }

  /** Splitting the rest of the text when `current` has been read into the
      piece being built. */
  function SplitCrlfFrom(s: string, current: string): (parts: seq<string>)
    ensures |parts| >= 1
    decreases |s|
  {
    if |s| == 0 then [current]
    else if CrlfAt(s, 0) then [current] + SplitCrlfFrom(s[2..], "")
    else SplitCrlfFrom(s[1..], current + [s[0]])
  }

  /** Joining with CR LF: the inverse of SplitCrlf. */
  function JoinCrlf(parts: seq<string>): string
  {
    if |parts| == 0 then ""
    else if |parts| == 1 then parts[0]
    else parts[0] + "\r\n" + JoinCrlf(parts[1..])
  }

  lemma {:induction false} JoinSplitCrlfFrom(s: string, current: string)
    ensures JoinCrlf(SplitCrlfFrom(s, current)) == current + s
    decreases |s|
  {
    if |s| == 0 {
      assert current + s == current;
    } else if CrlfAt(s, 0) {
      var rest := SplitCrlfFrom(s[2..], "");
      JoinSplitCrlfFrom(s[2..], "");
      assert ([current] + rest)[1..] == rest;
      assert s == "\r\n" + s[2..];
      assert "" + s[2..] == s[2..];
    } else {
      JoinSplitCrlfFrom(s[1..], current + [s[0]]);
      assert current + [s[0]] + s[1..] == current + s;
    }
  }

  /** No CR LF occurs in `s`. */
  predicate NoCrlf(s: string) {
    forall j :: 0 <= j < |s| ==> !CrlfAt(s, j)
  }

  /** Every piece is free of CR LF, provided the piece being built is, and
      does not end in a CR that the next character would complete. */
  lemma {:induction false} SplitCrlfFromNoCrlf(s: string, current: string)
    requires NoCrlf(current)
    requires |current| > 0 && current[|current| - 1] == '\r' ==> |s| == 0 || s[0] != '\n'
    ensures forall i :: 0 <= i < |SplitCrlfFrom(s, current)| ==> NoCrlf(SplitCrlfFrom(s, current)[i])
    decreases |s|
  {
    if |s| == 0 {
    } else if CrlfAt(s, 0) {
      assert NoCrlf("");
      SplitCrlfFromNoCrlf(s[2..], "");
    } else {
      var next := current + [s[0]];
      forall j ensures !CrlfAt(next, j) {
        if CrlfAt(next, j) && j + 1 < |current| {
          assert CrlfAt(current, j);
        }
      }
      SplitCrlfFromNoCrlf(s[1..], next);
    }
  }

  /** Splitting at CR LF and joining back gives the text, and no piece
      holds a CR LF: the pieces are exactly those of `split("\r\n")`. */
  lemma JoinSplitCrlf(s: string)
    ensures JoinCrlf(SplitCrlf(s)) == s
    ensures forall i :: 0 <= i < |SplitCrlf(s)| ==> forall j :: !CrlfAt(SplitCrlf(s)[i], j)
  {
    JoinSplitCrlfFrom(s, "");
    assert "" + s == s;
    SplitCrlfFromNoCrlf(s, "");
    assert forall i :: 0 <= i < |SplitCrlf(s)| ==> NoCrlf(SplitCrlf(s)[i]);
  }

  /** `PathBuf::push` of a relative name: a `/` is inserted unless the
      directory is empty or already ends with one. */
  function JoinPath(dir: string, name: string): (p: string)
    ensures |p| >= |name| && p[|p| - |name|..] == name
  {
    if dir == [] || dir[|dir| - 1] == '/' then dir + name else dir + "/" + name
  }

  // ---------------------------------------------------------------------------
  // Decimal numbers

  predicate IsDigit(c: char) {
    '0' <= c <= '9'
  }

  predicate AllDigits(s: string) {
    forall k :: 0 <= k < |s| ==> IsDigit(s[k])
  }

  predicate IsAsciiAlphanumeric(c: char) {
    IsDigit(c) || ('a' <= c <= 'z') || ('A' <= c <= 'Z')
  }

  function DigitChar(d: nat): (c: char)
    requires d < 10
    ensures IsDigit(c)
  {
    ['0', '1', '2', '3', '4', '5', '6', '7', '8', '9'][d]
  }

  function DigitValue(c: char): (d: nat)
    requires IsDigit(c)
    ensures d < 10
  {
    (c as int - '0' as int) as nat
  }

  lemma DigitRoundTrip(d: nat)
    requires d < 10
    ensures DigitValue(DigitChar(d)) == d
  {
  }

  /** The value of a string of decimal digits, most significant first. */
  function DigitsValue(s: string): nat
    requires AllDigits(s)
  {
    if |s| == 0 then 0 else DigitsValue(s[..|s| - 1]) * 10 + DigitValue(s[|s| - 1])
  }

  function Pow10(k: nat): (p: nat)
    ensures p >= 1
  {
    if k == 0 then 1 else 10 * Pow10(k - 1)
  }

  /** `u32::to_string`: decimal, no sign and no leading zero. */
  function NatToString(n: nat): (s: string)
    ensures |s| >= 1 && AllDigits(s)
    ensures s[0] != '0' || n == 0
  {
    if n < 10 then [DigitChar(n)] else NatToString(n / 10) + [DigitChar(n % 10)]
  }

  lemma {:induction false} NatToStringValue(n: nat)
    ensures DigitsValue(NatToString(n)) == n
  {
    var s := NatToString(n);
    if n < 10 {
      DigitRoundTrip(n);
    } else {
      NatToStringValue(n / 10);
      DigitRoundTrip(n % 10);
      assert s[..|s| - 1] == NatToString(n / 10);
    }
  }

  /** A number with exactly `k` decimal digits prints as `k` characters. */
  lemma {:induction false} NatToStringLength(n: nat, k: nat)
    requires k >= 1 && Pow10(k - 1) <= n < Pow10(k)
    ensures |NatToString(n)| == k
    decreases k
  {
    if k > 1 {
      assert Pow10(k - 1) == 10 * Pow10(k - 2);
    }
    if n >= 10 {
      assert Pow10(k) == 10 * Pow10(k - 1);
      assert Pow10(k - 2) <= n / 10 < Pow10(k - 1);
      NatToStringLength(n / 10, k - 1);
    }
  }

  /** The value of `s` read as decimal digits, or nothing when some
      character is not a digit. */
  function ReadDigits(s: string): Option<nat>
  {
    if |s| == 0 then Some(0)
    else if !IsDigit(s[|s| - 1]) then None
    else
      match ReadDigits(s[..|s| - 1])
      case None => None
      case Some(v) => Some(v * 10 + DigitValue(s[|s| - 1]))
  }

  /** Reading digits succeeds exactly on strings of digits, with their value. */
  lemma {:induction false} ReadDigitsValue(s: string)
    ensures ReadDigits(s).Some? <==> AllDigits(s)
    ensures AllDigits(s) ==> ReadDigits(s) == Some(DigitsValue(s))
  {
    if |s| > 0 {
      var init := s[..|s| - 1];
      ReadDigitsValue(init);
      assert AllDigits(s) <==> AllDigits(init) && IsDigit(s[|s| - 1]) by {
        assert forall k :: 0 <= k < |init| ==> init[k] == s[k];
      }
    }
  }

  /** The text after an optional leading `+`. */
  function Unsigned(s: string): string {
    if |s| > 0 && s[0] == '+' then s[1..] else s
  }

  /** `u32::from_str`: an optional `+`, then at least one decimal digit,
      and a value that fits in 32 bits. */
  function ParseU32(s: string): (r: Option<nat>)
    ensures r.Some? ==> r.value < 0x1_0000_0000
  {
    var body := Unsigned(s);
    if |body| == 0 then None
    else
      match ReadDigits(body)
      case None => None
      case Some(v) => if v >= 0x1_0000_0000 then None else Some(v)
  }

  /** What `u32::from_str` accepts: after an optional `+`, a non-empty run
      of digits whose value is below 2^32, and the result is that value. */
  lemma ParseU32Accepts(s: string)
    ensures ParseU32(s).Some? <==>
      |Unsigned(s)| > 0 && AllDigits(Unsigned(s)) && DigitsValue(Unsigned(s)) < 0x1_0000_0000
    ensures ParseU32(s).Some? ==> ParseU32(s).value == DigitsValue(Unsigned(s))
  {
    ReadDigitsValue(Unsigned(s));
  }

  /** Printing a 32-bit number and parsing it back gives the number. */
  lemma ParseNatToString(n: nat)
    requires n < 0x1_0000_0000
    ensures ParseU32(NatToString(n)) == Some(n)
  {
    NatToStringValue(n);
    ParseU32Accepts(NatToString(n));
  }
}
