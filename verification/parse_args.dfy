/** Splitting the program's arguments around the first `-c`
    (src/parse_args.rs). The arguments are an input, `args[0]` being the
    program name. Slicing out of range in the source is a panic, modelled
    as `Panics`. */
module ParseArgs {
  import opened Wrappers

  /** The index of the first `-c`, if any. */
  function FindFlag(args: seq<string>): (r: Option<nat>)
    ensures r.None? <==> "-c" !in args
    ensures r.Some? ==> r.value < |args| && args[r.value] == "-c" && "-c" !in args[..r.value]
  {
    if |args| == 0 then None
    else if args[0] == "-c" then Some(0)
    else
      match FindFlag(args[1..])
      case None => None
      case Some(i) =>
        assert args[..i + 1] == [args[0]] + args[1..][..i];
        Some(i + 1)
  }

  /** `parse_args`: the argument after the first `-c` is the command and the
      others, without the program name, keep their order. A `-c` in the
      program name's place, a `-c` with nothing after it, or no arguments
      at all make a slice out of range. */
  function ParseArgs(args: seq<string>): (r: Panicking<(Option<string>, seq<string>)>)
    ensures r.Panics? <==>
      |args| == 0 || (FindFlag(args).Some? && (FindFlag(args).value == 0 || FindFlag(args).value + 1 == |args|))
  {
    match FindFlag(args)
    case None =>
      if |args| == 0 then Panics("range start index 1 out of range")
      else Returns((None, args[1..]))
    case Some(i) =>
      if i == 0 then Panics("slice index starts at 1 but ends at 0")
      else if i + 2 > |args| then Panics("range start index out of range")
      else Returns((Some(args[i + 1]), args[1..i] + args[i + 2..]))
  }

  /** Without `-c` there is no command and every argument after the
      program name is kept. */
  lemma NoFlagKeepsAll(args: seq<string>)
    requires |args| > 0 && "-c" !in args
    ensures ParseArgs(args) == Returns((None, args[1..]))
  {
  }

  /** With a `-c` at index `i` (the first), the next argument is the command
      and the rest are the arguments around the pair, in order. */
  lemma FirstFlagSplits(args: seq<string>, i: nat)
    requires 1 <= i && i + 1 < |args| && args[i] == "-c" && "-c" !in args[..i]
    ensures ParseArgs(args) == Returns((Some(args[i + 1]), args[1..i] + args[i + 2..]))
    ensures |ParseArgs(args).value.1| == |args| - 3
  {
    FlagAt(args, i);
  }

  /** The first `-c` is where it is found. */
  lemma {:induction false} FlagAt(args: seq<string>, i: nat)
    requires i < |args| && args[i] == "-c" && "-c" !in args[..i]
    ensures FindFlag(args) == Some(i)
  {
    if i > 0 {
      assert args[0] == args[..i][0];
      assert args[1..][..i - 1] == args[..i][1..];
      FlagAt(args[1..], i - 1);
    }
  }

  /** Only the first `-c` is consumed: every later one stays in the rest. */
  lemma LaterFlagsStay(args: seq<string>, k: nat)
    requires ParseArgs(args).Returns? && ParseArgs(args).value.0.Some?
    requires FindFlag(args).value + 1 < k < |args| && args[k] == "-c"
    ensures "-c" in ParseArgs(args).value.1
  {
    var i := FindFlag(args).value;
    assert args[i + 2..][k - i - 2] == "-c";
  }
}
