/** `total_memory` of pyanaconda.isys: the installed memory in kB, read from
    the lines of /proc/meminfo and rounded up to a 128 MB boundary.  The
    lines are a parameter; opening and reading the file is not modelled.
 */
module Meminfo {
  import opened Outcomes
  import opened Text

  const KB_PER_MB: int := 1024
  /** The boundary the reported value is rounded up to, in MB. */
  const ROUND_MB: int := 128
  /** The same boundary in kB. */
  const ROUND_KB: int := ROUND_MB * KB_PER_MB

  predicate IsMemTotalLine(line: string) {
    StartsWith(line, "MemTotal")
  }

  /** `line.rstrip()`: the line without its trailing whitespace. */
  function RStrip(line: string): (r: string)
    ensures |r| <= |line| && r == line[..|r|]
    ensures |r| == 0 || !IsSpace(r[|r| - 1])
    ensures forall i :: |r| <= i < |line| ==> IsSpace(line[i])
  {
    if |line| > 0 && IsSpace(line[|line| - 1]) then RStrip(line[..|line| - 1]) else line
  }

  // Message texts are split in two so that the verifier can see their
  // first characters; long string literals are opaque to it.
  const FORMAT_MSG := "unknown format for MemTotal line"
  const VALUE_MSG := "ivalid value of MemTotal"

  function FormatError(line: string): Error {
    RuntimeError(FORMAT_MSG + " in /proc/meminfo: " + RStrip(line))
  }

  function InvalidValueError(field: string): Error {
    RuntimeError(VALUE_MSG + " /proc/meminfo: " + field)
  }

  const NOT_FOUND_MSG := "MemTotal: line not found"
  const NotFoundError: Error := RuntimeError(NOT_FOUND_MSG + " in /proc/meminfo")

  /** The three failures carry three different messages. */
  lemma MessagesDiffer(line: string, field: string)
    ensures FormatError(line) != InvalidValueError(field)
    ensures FormatError(line) != NotFoundError
    ensures InvalidValueError(field) != NotFoundError
  {
    assert FormatError(line).msg[0] == FORMAT_MSG[0] == 'u';
    assert InvalidValueError(field).msg[0] == VALUE_MSG[0] == 'i';
    assert NotFoundError.msg[0] == NOT_FOUND_MSG[0] == 'M';
  }

  lemma NestedDivision(kb: int)
    ensures (kb / KB_PER_MB) / ROUND_MB == kb / ROUND_KB
  {
    var q := kb / ROUND_KB;
    var rem := kb % ROUND_KB;
    assert kb == q * ROUND_KB + rem && 0 <= rem < ROUND_KB;
    assert kb == (q * ROUND_MB + rem / KB_PER_MB) * KB_PER_MB + rem % KB_PER_MB;
    assert kb / KB_PER_MB == q * ROUND_MB + rem / KB_PER_MB;
    assert 0 <= rem / KB_PER_MB < ROUND_MB;
  }

  /** The rounding `total_memory` applies with Python 2 integer (floor)
      division: kB to MB, up to the next multiple of 128 MB, back to kB.
      The result is the least multiple of 128 MB strictly above the input,
      so a value already on a boundary still gains a full 128 MB. */
  function RoundUpMemory(kb: int): (r: int)
    ensures r % ROUND_KB == 0
    ensures kb < r <= kb + ROUND_KB
  {
    NestedDivision(kb);
    var mb := kb / KB_PER_MB;
    var mbUp := (mb / ROUND_MB + 1) * ROUND_MB;
    assert mbUp * KB_PER_MB == (kb / ROUND_KB + 1) * ROUND_KB;
    mbUp * KB_PER_MB
  }

  /** What `total_memory` does with the first line that starts with
      "MemTotal": it needs exactly three fields and an integer in the
      second. */
  function ReadMemTotalLine(line: string): (r: Result<int>)
    ensures |Split(line)| != 3 <==> r == Err(FormatError(line))
    ensures r.Ok? <==> |Split(line)| == 3 && IsIntLiteral(Split(line)[1])
    ensures |Split(line)| == 3 && !IsIntLiteral(Split(line)[1]) ==>
              r == Err(InvalidValueError(Split(line)[1]))
    ensures r.Ok? ==> r.value == RoundUpMemory(ParseInt(Split(line)[1]).value)
  {
    var fields := Split(line);
    if |fields| != 3 then Err(FormatError(line))
    else match ParseInt(fields[1])
      case None =>
        MessagesDiffer(line, fields[1]);
        Err(InvalidValueError(fields[1]))
      case Some(kb) => Ok(RoundUpMemory(kb))
  }

  /** `total_memory()` over the lines of /proc/meminfo. */
  function TotalMemory(lines: seq<string>): (r: Result<int>)
    ensures (forall i :: 0 <= i < |lines| ==> !IsMemTotalLine(lines[i])) <==> r == Err(NotFoundError)
    ensures r.Ok? ==> r.value % ROUND_KB == 0
  {
    if |lines| == 0 then Err(NotFoundError)
    else if IsMemTotalLine(lines[0]) then
      var fields := Split(lines[0]);
      MessagesDiffer(lines[0], if |fields| == 3 then fields[1] else "");
      ReadMemTotalLine(lines[0])
    else TotalMemory(lines[1..])
  }

  /** Lines that do not start with "MemTotal" are skipped, and the first line
      that does decides the outcome alone: whatever follows it is never
      read. */
  lemma {:induction false} FirstMemTotalDecides(before: seq<string>, line: string, after: seq<string>)
    requires forall i :: 0 <= i < |before| ==> !IsMemTotalLine(before[i])
    requires IsMemTotalLine(line)
    ensures TotalMemory(before + [line] + after) == ReadMemTotalLine(line)
    decreases |before|
  {
    var lines := before + [line] + after;
    if |before| == 0 {
      assert lines[0] == line;
    } else {
      assert lines[0] == before[0];
      assert lines[1..] == before[1..] + [line] + after;
      FirstMemTotalDecides(before[1..], line, after);
    }
  }

  /** When the first MemTotal line reads `MemTotal: <kb> kB`, the result is
      the least multiple of 128 MB strictly above `kb`. */
  lemma MemTotalRoundedUp(before: seq<string>, line: string, after: seq<string>, kb: int)
    requires forall i :: 0 <= i < |before| ==> !IsMemTotalLine(before[i])
    requires IsMemTotalLine(line)
    requires |Split(line)| == 3 && ParseInt(Split(line)[1]) == Some(kb)
    ensures TotalMemory(before + [line] + after).Ok?
    ensures var total := TotalMemory(before + [line] + after).value;
            total % ROUND_KB == 0 && kb < total <= kb + ROUND_KB
  {
    FirstMemTotalDecides(before, line, after);
  }
}
