/** String helpers with Python 2 semantics: `str.startswith`, `str.split()`
    with no separator, `int()` applied to one whitespace-free token and `%d`
    formatting.
 */
module Text {
  import opened Outcomes

  predicate StartsWith(s: string, prefix: string) {
    |prefix| <= |s| && s[..|prefix|] == prefix
  }

  /** The characters Python 2's `str.split()` treats as whitespace. */
  predicate IsSpace(c: char) {
    c == ' ' || c == '\t' || c == '\n' || c == '\r' || c as int == 11 || c as int == 12
  }

  predicate NoSpace(w: string) {
    forall i :: 0 <= i < |w| ==> !IsSpace(w[i])
  }

  /** Length of the leading run of whitespace. */
  function SpaceRun(s: string): (n: nat)
    ensures n <= |s|
    ensures forall i :: 0 <= i < n ==> IsSpace(s[i])
    ensures n < |s| ==> !IsSpace(s[n])
  {
    if |s| == 0 || !IsSpace(s[0]) then 0 else 1 + SpaceRun(s[1..])
  }

  /** Length of the leading run of non-whitespace. */
  function WordRun(s: string): (n: nat)
    ensures n <= |s|
    ensures NoSpace(s[..n])
    ensures n < |s| ==> IsSpace(s[n])
  {
    if |s| == 0 || IsSpace(s[0]) then 0 else 1 + WordRun(s[1..])
  }

  /** `s.split()`: the maximal runs of non-whitespace, in order. */
  function Split(s: string): (fields: seq<string>)
    ensures forall k :: 0 <= k < |fields| ==> |fields[k]| > 0 && NoSpace(fields[k])
    decreases |s|
  {
    var lead := SpaceRun(s);
    if lead == |s| then []
    else
      var rest := s[lead..];
      var n := WordRun(rest);
      [rest[..n]] + Split(rest[n..])
  }

  /** The fields written back out with one space between them. */
  function JoinSpaced(ws: seq<string>): string {
    if |ws| == 0 then "" else if |ws| == 1 then ws[0] else ws[0] + " " + JoinSpaced(ws[1..])
  }

  lemma SpaceRunOfWord(w: string, tail: string)
    requires NoSpace(w) && |w| > 0
    ensures SpaceRun(w + tail) == 0
  {
    assert (w + tail)[0] == w[0];
  }

  lemma WordRunOfWord(w: string, tail: string)
    requires NoSpace(w)
    requires |tail| == 0 || IsSpace(tail[0])
    ensures WordRun(w + tail) == |w|
    decreases |w|
  {
    if |w| > 0 {
      assert (w + tail)[1..] == w[1..] + tail;
      WordRunOfWord(w[1..], tail);
    } else {
      assert w + tail == tail;
    }
  }

  /** Splitting the space-joined words gives the words back: `split()`
      loses no field and invents none. */
  lemma {:induction false} SplitJoin(ws: seq<string>)
    requires forall k :: 0 <= k < |ws| ==> |ws[k]| > 0 && NoSpace(ws[k])
    ensures Split(JoinSpaced(ws)) == ws
    decreases |ws|
  {
    if |ws| == 0 {
    } else if |ws| == 1 {
      var s := ws[0];
      SpaceRunOfWord(s, "");
      assert s + "" == s;
      WordRunOfWord(s, "");
      assert s[|s|..] == "";
      assert Split(s) == [s[..|s|]] + Split("");
      assert s[..|s|] == s;
    } else {
      var tail := JoinSpaced(ws[1..]);
      var s := ws[0] + " " + tail;
      assert s == ws[0] + (" " + tail);
      SpaceRunOfWord(ws[0], " " + tail);
      WordRunOfWord(ws[0], " " + tail);
      assert s[..|ws[0]|] == ws[0];
      var after := s[|ws[0]|..];
      assert after == " " + tail;
      assert SpaceRun(after) == 1 + SpaceRun(tail) by {
        assert after[1..] == tail;
      }
      SplitJoin(ws[1..]);
      SplitLeadingSpace(after);
      assert after[1..] == tail;
    }
  }

  /** One leading blank never changes the fields. */
  lemma SplitLeadingSpace(s: string)
    requires |s| > 0 && IsSpace(s[0])
    ensures Split(s) == Split(s[1..])
  {
    var lead := SpaceRun(s);
    assert lead == 1 + SpaceRun(s[1..]);
    assert s[lead..] == s[1..][SpaceRun(s[1..])..];
  }

  // ---------------------------------------------------------------------
  // Integers: Python 2 `int(token)` and `"%d" % n`

  predicate IsDigit(c: char) { '0' <= c <= '9' }

  predicate AllDigits(s: string) {
    forall i :: 0 <= i < |s| ==> IsDigit(s[i])
  }

  function DigitValue(c: char): nat
    requires IsDigit(c)
  {
    (c as int - '0' as int) as nat
  }

  function DigitChar(d: nat): (c: char)
    requires d < 10
    ensures IsDigit(c) && DigitValue(c) == d
  {
    ('0' as int + d) as char
  }

  /** Decimal value of a digit string, most significant digit first. */
  function DigitsValue(s: string): nat
    requires AllDigits(s)
  {
    if |s| == 0 then 0 else 10 * DigitsValue(s[..|s| - 1]) + DigitValue(s[|s| - 1])
  }

  /** The token `int()` accepts: an optional sign followed by one or more
      ASCII digits. */
  predicate IsIntLiteral(s: string) {
    if |s| > 0 && (s[0] == '-' || s[0] == '+') then |s| > 1 && AllDigits(s[1..])
    else |s| > 0 && AllDigits(s)
  }

  /** `int(s)` for a token without whitespace; `None` where Python raises
      ValueError. */
  function ParseInt(s: string): (r: Option<int>)
    ensures r.Some? <==> IsIntLiteral(s)
    ensures r.Some? && s[0] == '-' ==> r.value <= 0
    ensures r.Some? && s[0] != '-' ==> r.value >= 0
  {
    if |s| > 0 && (s[0] == '-' || s[0] == '+') then
      if |s| > 1 && AllDigits(s[1..]) then
        var v: int := DigitsValue(s[1..]);
        Some(if s[0] == '-' then -v else v)
      else None
    else if |s| > 0 && AllDigits(s) then Some(DigitsValue(s))
    else None
  }

  /** `"%d" % n` for a non-negative n. */
  function ShowNat(n: nat): (s: string)
    ensures |s| > 0 && AllDigits(s)
  {
    if n < 10 then [DigitChar(n)] else ShowNat(n / 10) + [DigitChar(n % 10)]
  }

  /** `"%d" % i`. */
  function ShowInt(i: int): (s: string)
    ensures |s| > 0
  {
    if i < 0 then "-" + ShowNat(-i) else ShowNat(i)
  }

  lemma {:induction false} ShowNatValue(n: nat)
    ensures DigitsValue(ShowNat(n)) == n
  {
    if n >= 10 {
      var s := ShowNat(n);
      ShowNatValue(n / 10);
      assert s[..|s| - 1] == ShowNat(n / 10);
    }
  }

  /** `int("%d" % i) == i`: the decimal rendering is read back exactly. */
  lemma ParseShowInt(i: int)
    ensures ParseInt(ShowInt(i)) == Some(i)
  {
    if i < 0 {
      ShowNatValue(-i);
      assert ShowInt(i)[1..] == ShowNat(-i);
    } else {
      ShowNatValue(i);
    }
  }
}
