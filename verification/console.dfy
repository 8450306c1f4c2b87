/** Standard input as the authenticators see it: a finite sequence of lines. */
module Console {

  /** The outcome of one `read_line` call: the text read (trailing newline
      included) or an I/O error. */
  datatype ReadLine = Got(text: string) | ReadFailed

  /** The `k`-th read. Past the end of input `read_line` succeeds with nothing read. */
  function LineAt(stdin: seq<ReadLine>, k: nat): (r: ReadLine)
    ensures k >= |stdin| ==> r == Got("")
  {
    if k < |stdin| then stdin[k] else Got("")
  }
}
