/** Where the login comes from (src/ip.rs): the first field of
    `SSH_CONNECTION`, else the bracketed host in the output of
    `who -u am i`, else nothing. The environment variable and the command's
    output are inputs. */
module Ip {
  import opened Wrappers
  import opened Text

  // ---------------------------------------------------------------------------
  // The regular expression `\(.*\)`

  /** `s[p..q+1]` is a match of `\(.*\)`: a `(`, then anything but a newline
      (`.` does not match `\n`), then a `)`. */
  predicate MatchAt(s: string, p: int, q: int) {
    0 <= p < q < |s| && s[p] == '(' && s[q] == ')' && forall k :: p < k < q ==> s[k] != '\n'
  }

  /** The index of the first newline at or after `from`, or the length of `s`. */
  function LineEnd(s: string, from: nat): (e: nat)
    requires from <= |s|
    ensures from <= e <= |s| && (e == |s| || s[e] == '\n')
    ensures forall k :: from <= k < e ==> s[k] != '\n'
    decreases |s| - from
  {
    if from == |s| || s[from] == '\n' then from else LineEnd(s, from + 1)
  }

  /** The last `)` in `s[lo..hi]`. */
  function LastClose(s: string, lo: nat, hi: nat): (r: Option<nat>)
    requires lo <= hi <= |s|
    ensures r.Some? ==> lo <= r.value < hi && s[r.value] == ')'
    ensures r.Some? ==> forall k :: r.value < k < hi ==> s[k] != ')'
    ensures r.None? ==> forall k :: lo <= k < hi ==> s[k] != ')'
    decreases hi - lo
  {
    if lo == hi then None
    else if s[hi - 1] == ')' then Some(hi - 1)
    else LastClose(s, lo, hi - 1)
  }

  /** `Regex::find` for `\(.*\)` from position `from`: the leftmost start,
      and from it the longest match (the `*` is greedy). */
  function FindMatch(s: string, from: nat): (r: Option<(nat, nat)>)
    requires from <= |s|
    ensures r.Some? ==> from <= r.value.0 && MatchAt(s, r.value.0, r.value.1)
    ensures r.Some? ==> forall q :: r.value.1 < q ==> !MatchAt(s, r.value.0, q)
    ensures r.Some? ==> forall p, q :: from <= p < r.value.0 ==> !MatchAt(s, p, q)
    ensures r.None? ==> forall p, q :: from <= p ==> !MatchAt(s, p, q)
    decreases |s| - from
  {
    if from == |s| then None
    else if s[from] == '(' then
      var e := LineEnd(s, from + 1);
      match LastClose(s, from + 1, e)
      case Some(q) =>
        assert forall q' :: q < q' ==> !MatchAt(s, from, q');
        Some((from, q))
      case None =>
        assert forall q' :: !MatchAt(s, from, q');
        FindMatch(s, from + 1)
    else FindMatch(s, from + 1)
  }

  /** On a single line the match runs from the first `(` to the last `)`. */
  lemma SingleLineMatch(s: string)
    requires '\n' !in s
    requires FindFirst(s, '(').Some? && FindLast(s, ')').Some?
    requires FindFirst(s, '(').value < FindLast(s, ')').value
    ensures FindMatch(s, 0) == Some((FindFirst(s, '(').value, FindLast(s, ')').value))
  {
    var p, q := FindFirst(s, '(').value, FindLast(s, ')').value;
    assert MatchAt(s, p, q);
    assert forall k :: q < k < |s| ==> s[k] != ')' by {
      forall k | q < k < |s| ensures s[k] != ')' {
        assert s[q + 1..][k - q - 1] == s[k];
      }
    }
    assert forall k :: 0 <= k < p ==> s[k] != '(' by {
      forall k | 0 <= k < p ensures s[k] != '(' {
        assert s[..p][k] == s[k];
      }
    }
    var (p', q') := FindMatch(s, 0).value;
    assert p' == p;
    assert q' == q;
  }

  // ---------------------------------------------------------------------------
  // get_from

  /** The text strictly inside the bracketed match, if any. */
  function Bracketed(s: string): (r: Option<string>)
    ensures r.Some? <==> exists p, q :: MatchAt(s, p, q)
    ensures r.Some? ==> exists p, q :: && MatchAt(s, p, q) && r.value == s[p + 1..q]
                                       && (forall p', q' :: 0 <= p' < p ==> !MatchAt(s, p', q'))
                                       && (forall q' :: q < q' ==> !MatchAt(s, p, q'))
  {
    match FindMatch(s, 0)
    case None => None
    case Some((p, q)) => Some(s[p + 1..q])
  }

  /** `get_from`. `sshConnection` is `SSH_CONNECTION` when set (and valid
      Unicode); `who` is the output of `who -u am i` when it ran. */
  function GetFrom(sshConnection: Option<string>, who: Option<string>): (r: string)
    ensures sshConnection.Some? && SplitWhitespace(sshConnection.value) != [] ==>
      r == SplitWhitespace(sshConnection.value)[0] && r != [] && NoWhitespace(r)
    ensures (sshConnection.None? || SplitWhitespace(sshConnection.value) == []) ==>
      r == (if who.Some? && Bracketed(Trim(who.value)).Some? then Bracketed(Trim(who.value)).value else "")
  {
    if sshConnection.Some? && SplitWhitespace(sshConnection.value) != [] then
      SplitWhitespace(sshConnection.value)[0]
    else if who.Some? && Bracketed(Trim(who.value)).Some? then
      Bracketed(Trim(who.value)).value
    else ""
  }
}
