/** The text operations line-oriented parsers are made of, and how they undo printing. */
module Text {
  import opened Wrappers

  /** `p` occurs in `s` at `i`. */
  predicate At(s: string, p: string, i: int) {
    0 <= i && i + |p| <= |s| && s[i..i + |p|] == p
  }

  ghost predicate Contains(s: string, p: string) {
    exists i :: At(s, p, i)
  }

  /** The first occurrence at or after `i`. */
  function First(s: string, p: string, i: nat): (r: Option<nat>)
    requires i <= |s|
    ensures r.Some? ==> i <= r.value && At(s, p, r.value) && forall j | i <= j < r.value :: !At(s, p, j)
    ensures r.None? ==> forall j | i <= j :: !At(s, p, j)
    decreases |s| - i
  {
    if At(s, p, i) then Some(i) else if i == |s| then None else First(s, p, i + 1)
  }

  /** The last occurrence at or before `i`. */
  function Last(s: string, p: string, i: nat): (r: Option<nat>)
    ensures r.Some? ==> r.value <= i && At(s, p, r.value) && forall j | r.value < j <= i :: !At(s, p, j)
    ensures r.None? ==> forall j | j <= i :: !At(s, p, j)
  {
    if At(s, p, i) then Some(i) else if i == 0 then None else Last(s, p, i - 1)
  }

  function StripPrefix(s: string, p: string): Option<string> {
    if p <= s then Some(s[|p|..]) else None
  }

  function StripSuffix(s: string, p: string): Option<string> {
    if At(s, p, |s| - |p|) then Some(s[..|s| - |p|]) else None
  }

  function SplitOnce(s: string, p: string): (r: Option<(string, string)>)
    ensures r.None? <==> !Contains(s, p)
    ensures r.Some? ==> s == r.value.0 + p + r.value.1
  {
    match First(s, p, 0)
    case None => None
    case Some(i) =>
      assert s == s[..i] + p + s[i + |p|..];
      Some((s[..i], s[i + |p|..]))
  }

  function RSplitOnce(s: string, p: string): (r: Option<(string, string)>)
    ensures r.None? <==> !Contains(s, p)
    ensures r.Some? ==> s == r.value.0 + p + r.value.1
  {
    match Last(s, p, |s|)
    case None => None
    case Some(i) =>
      assert s == s[..i] + p + s[i + |p|..];
      Some((s[..i], s[i + |p|..]))
  }

  /** The pieces between separators. */
  function Split(s: string, p: string): (pieces: seq<string>)
    requires p != ""
    ensures pieces != []
    decreases |s|
  {
    match SplitOnce(s, p)
    case None => [s]
    case Some((piece, rest)) =>
      assert |s| == |piece| + |p| + |rest|;
      [piece] + Split(rest, p)
  }

  // ---------------------------------------------------------------- occurrences

  lemma AtPrefix(x: string, y: string, p: string, i: nat)
    requires i + |p| <= |x|
    ensures At(x + y, p, i) <==> At(x, p, i)
  {
    assert (x + y)[i..i + |p|] == x[i..i + |p|];
  }

  lemma AtChar(s: string, p: string, i: int, k: nat)
    requires At(s, p, i) && k < |p|
    ensures i + k < |s| && s[i + k] == p[k]
  {
    assert s[i..i + |p|][k] == s[i + k];
  }

  lemma NotAt(s: string, p: string, i: nat, k: nat)
    requires k < |p| && (i + k < |s| ==> s[i + k] != p[k])
    ensures !At(s, p, i)
  {
    if i + |p| <= |s| {
      assert s[i..i + |p|][k] == s[i + k];
    }
  }

  /** Splitting at the last separator undoes joining, if the separator has a character that what follows has not. */
  lemma RSplitJoins(x: string, p: string, t: string, k: nat)
    requires k < |p| && p[k] !in t && forall m | k < m < |p| :: p[m] != p[k]
    ensures RSplitOnce(x + p + t, p) == Some((x, t))
  {
    var s := x + p + t;
    assert At(s, p, |x|) by {
      assert s[|x|..|x| + |p|] == p;
    }
    forall j | |x| < j <= |s|
      ensures !At(s, p, j)
    {
      var m := j + k - |x|;
      if j + k < |s| {
        assert s[j + k] == (p + t)[m];
        assert m >= |p| ==> (p + t)[m] == t[m - |p|];
      }
      NotAt(s, p, j, k);
    }
    assert s[..|x|] == x && s[|x| + |p|..] == t;
  }

  /** Splitting at the first separator undoes joining exactly if the separator does not begin earlier. */
  lemma SplitJoins(x: string, p: string, t: string)
    requires p != ""
    ensures SplitOnce(x + p + t, p) == Some((x, t)) <==> !Contains(x + p[..|p| - 1], p)
    ensures SplitOnce(x + p + t, p).Some? && |SplitOnce(x + p + t, p).value.0| <= |x|
  {
    var s, front := x + p + t, x + p[..|p| - 1];
    assert s == front + (p[|p| - 1..] + t);
    assert At(s, p, |x|) by {
      assert s[|x|..|x| + |p|] == p;
    }
    forall j: nat | j < |x|
      ensures At(s, p, j) <==> At(front, p, j)
    {
      AtPrefix(front, p[|p| - 1..] + t, p, j);
    }
    assert s[..|x|] == x && s[|x| + |p|..] == t;
    var i := First(s, p, 0).value;
    if i < |x| {
      assert At(front, p, i);
    } else {
      forall j
        ensures !At(front, p, j)
      {
        assert 0 <= j < |x| ==> !At(s, p, j);
      }
    }
  }

  lemma SplitAtNewCharacter(x: string, p: string, t: string)
    requires p != "" && p[0] !in x
    ensures SplitOnce(x + p + t, p) == Some((x, t))
  {
    var front := x + p[..|p| - 1];
    forall j
      ensures !At(front, p, j)
    {
      if 0 <= j < |x| {
        assert front[j] == x[j];
        NotAt(front, p, j, 0);
      }
    }
    SplitJoins(x, p, t);
  }

  lemma SplitNothing(s: string, p: string)
    requires p != "" && p[0] !in s
    ensures SplitOnce(s, p) == None
  {
    forall j
      ensures !At(s, p, j)
    {
      if 0 <= j {
        NotAt(s, p, j, 0);
      }
    }
  }

  lemma StripsPrefix(p: string, s: string)
    ensures StripPrefix(p + s, p) == Some(s)
  {
    assert p <= p + s;
  }

  lemma StripsSuffix(s: string, p: string)
    ensures StripSuffix(s + p, p) == Some(s)
  {
    assert (s + p)[|s|..] == p;
  }

  // ---------------------------------------------------------------- decimal numbers

  predicate Digit(c: char) {
    '0' <= c <= '9'
  }

  function Value(digits: string): nat {
    if digits == "" then 0
    else
      var last := digits[|digits| - 1];
      10 * Value(digits[..|digits| - 1]) + if Digit(last) then last as nat - '0' as nat else 0
  }

  predicate AllDigits(s: string) {
    forall i | 0 <= i < |s| :: Digit(s[i])
  }

  /** Unsigned parsing: an optional plus sign, at least one digit, nothing else, and no overflow. */
  function ParseNat(s: string, max: nat): Option<nat> {
    var digits := if s != "" && s[0] == '+' then s[1..] else s;
    if digits == "" || !AllDigits(digits) || Value(digits) > max then None
    else Some(Value(digits))
  }

  function Decimal(n: nat): (digits: string)
    ensures digits != "" && forall i | 0 <= i < |digits| :: Digit(digits[i])
  {
    var last := ['0' + (n % 10) as char];
    if n < 10 then last else Decimal(n / 10) + last
  }

  lemma {:induction false} DecimalValue(n: nat)
    ensures Value(Decimal(n)) == n
  {
    var last := '0' + (n % 10) as char;
    if n < 10 {
      assert Decimal(n) == [last] && Decimal(n)[..0] == "";
    } else {
      DecimalValue(n / 10);
      assert (Decimal(n / 10) + [last])[..|Decimal(n / 10)|] == Decimal(n / 10);
    }
  }

  /** Printing a number and parsing it back: the number, exactly if it is in range. */
  lemma ParsesDecimal(n: nat, max: nat)
    ensures ParseNat(Decimal(n), max) == if n <= max then Some(n) else None
  {
    DecimalValue(n);
    assert Digit(Decimal(n)[0]);
  }

  // ---------------------------------------------------------------- lines

  function LineEnd(s: string): (end: nat)
    ensures end <= |s| && '\n' !in s[..end] && (end < |s| ==> s[end] == '\n')
  {
    if s == "" || s[0] == '\n' then 0
    else
      var end := LineEnd(s[1..]) + 1;
      assert s[..end] == [s[0]] + s[1..][..end - 1];
      end
  }

  function WithoutReturn(line: string): string {
    if line != "" && line[|line| - 1] == '\r' then line[..|line| - 1] else line
  }

  /** The lines that are not empty, without their line ends. */
  function Lines(text: string): seq<string>
    decreases |text|
  {
    if text == "" then []
    else
      var end := LineEnd(text);
      var line := WithoutReturn(text[..end]);
      var rest := Lines(if end < |text| then text[end + 1..] else "");
      if line == "" then rest else [line] + rest
  }

  ghost function Joined(lines: seq<string>): string {
    if lines == [] then "" else lines[0] + "\n" + Joined(lines[1..])
  }

  ghost function NonEmpty(lines: seq<string>): seq<string> {
    if lines == [] then []
    else if lines[0] == "" then NonEmpty(lines[1..]) else [lines[0]] + NonEmpty(lines[1..])
  }

  ghost predicate OneLine(line: string) {
    '\n' !in line && (line != "" ==> line[|line| - 1] != '\r')
  }

  lemma {:induction false} LineEndIs(s: string, end: nat)
    requires end < |s| && s[end] == '\n' && '\n' !in s[..end]
    ensures LineEnd(s) == end
  {
    if end > 0 {
      assert s[..end][0] == s[0];
      assert s[..end] == [s[0]] + s[1..][..end - 1];
      LineEndIs(s[1..], end - 1);
    }
  }

  lemma LineThenRest(line: string, rest: string)
    requires OneLine(line)
    ensures Lines(line + "\n" + rest) == if line == "" then Lines(rest) else [line] + Lines(rest)
  {
    var text := line + "\n" + rest;
    assert text[..|line|] == line && text[|line| + 1..] == rest;
    LineEndIs(text, |line|);
  }

  /** Reading lines undoes writing them, up to blank ones. */
  lemma {:induction false} LinesJoined(lines: seq<string>)
    requires forall line | line in lines :: OneLine(line)
    ensures Lines(Joined(lines)) == NonEmpty(lines)
  {
    if lines != [] {
      LineThenRest(lines[0], Joined(lines[1..]));
      LinesJoined(lines[1..]);
    }
  }
}
