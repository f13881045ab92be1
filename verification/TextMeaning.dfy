/** What the text operations do, said by joining texts alone. */
module TextMeaning {
  import opened Wrappers
  import opened Text

  // ---------------------------------------------------------------- prefixes, suffixes, separators

  lemma StripPrefixExactly(s: string, p: string, t: string)
    ensures StripPrefix(s, p) == Some(t) <==> s == p + t
  {
    if p <= s {
      assert s == p + s[|p|..];
    }
    if s == p + t {
      assert s[|p|..] == t;
    }
  }

  lemma StripSuffixExactly(s: string, p: string, t: string)
    ensures StripSuffix(s, p) == Some(t) <==> s == t + p
  {
    if At(s, p, |s| - |p|) {
      assert s == s[..|s| - |p|] + p;
    }
    if s == t + p {
      StripsSuffix(t, p);
    }
  }

  lemma AtJoins(s: string, p: string, i: nat)
    ensures At(s, p, i) <==> exists x, y :: |x| == i && s == x + p + y
  {
    if At(s, p, i) {
      assert s == s[..i] + p + s[i + |p|..];
    }
    forall x: string, y: string | |x| == i && s == x + p + y
      ensures At(s, p, i)
    {
      assert s[i..i + |p|] == p;
    }
  }

  /** `p` stands in `s` behind exactly `i` characters. */
  ghost predicate Behind(s: string, p: string, i: nat) {
    exists x, y :: |x| == i && s == x + p + y
  }

  ghost predicate FirstAt(s: string, p: string, front: string, back: string) {
    s == front + p + back && forall i: nat | i < |front| :: !Behind(s, p, i)
  }

  ghost predicate LastAt(s: string, p: string, front: string, back: string) {
    s == front + p + back && forall i: nat | i > |front| :: !Behind(s, p, i)
  }

  /** `p` stands somewhere in `s`. */
  ghost predicate Holds(s: string, p: string) {
    exists x, y :: s == x + p + y
  }

  /** The split is at the first place where the separator stands. */
  lemma SplitOnceExactly(s: string, p: string, front: string, back: string)
    ensures SplitOnce(s, p) == Some((front, back)) <==> FirstAt(s, p, front, back)
  {
    forall i: nat
      ensures Behind(s, p, i) <==> At(s, p, i)
    {
      AtJoins(s, p, i);
    }
    hide Behind;
    if FirstAt(s, p, front, back) {
      AtJoins(s, p, |front|);
      var i := First(s, p, 0).value;
      assert Behind(s, p, i);
      assert s[..|front|] == front && s[|front| + |p|..] == back;
    }
  }

  /** The split is at the last place where the separator stands. */
  lemma RSplitOnceExactly(s: string, p: string, front: string, back: string)
    ensures RSplitOnce(s, p) == Some((front, back)) <==> LastAt(s, p, front, back)
  {
    forall i: nat
      ensures Behind(s, p, i) <==> At(s, p, i)
    {
      AtJoins(s, p, i);
    }
    hide Behind;
    if LastAt(s, p, front, back) {
      AtJoins(s, p, |front|);
      var i := Last(s, p, |s|).value;
      assert Behind(s, p, i);
      assert s[..|front|] == front && s[|front| + |p|..] == back;
    }
  }

  /** A text is split exactly if it holds the separator somewhere. */
  lemma HoldsExactly(s: string, p: string)
    ensures Contains(s, p) <==> Holds(s, p)
  {
    if Contains(s, p) {
      var i :| At(s, p, i);
      AtJoins(s, p, i);
    }
    forall x: string, y: string | s == x + p + y
      ensures Contains(s, p)
    {
      AtJoins(s, p, |x|);
    }
  }

  // ---------------------------------------------------------------- numbers

  ghost function Zeros(k: nat): string {
    if k == 0 then "" else Zeros(k - 1) + "0"
  }

  /** Leading zeros, and a plus sign in front if there is one. */
  ghost predicate Numeral(s: string, n: nat) {
    exists k: nat :: s == Zeros(k) + Decimal(n) || s == "+" + (Zeros(k) + Decimal(n))
  }

  lemma {:induction false} ZerosAreDigits(k: nat, n: nat)
    ensures var s := Zeros(k) + Decimal(n);
      s != "" && AllDigits(s) && Value(s) == n
    decreases k, n
  {
    var s, last := Zeros(k) + Decimal(n), ['0' + (n % 10) as char];
    if n >= 10 {
      ZerosAreDigits(k, n / 10);
      assert s == Zeros(k) + Decimal(n / 10) + last;
      assert s[..|s| - 1] == Zeros(k) + Decimal(n / 10);
    } else if k > 0 {
      ZerosAreDigits(k - 1, 0);
      assert Decimal(0) == "0";
      assert s == Zeros(k) + last && s[..|s| - 1] == Zeros(k - 1) + Decimal(0);
    } else {
      assert s == last && s[..0] == "";
    }
  }

  lemma {:induction false} DigitsAreZeros(s: string) returns (k: nat)
    requires s != "" && AllDigits(s)
    ensures s == Zeros(k) + Decimal(Value(s))
  {
    var init, last := s[..|s| - 1], s[|s| - 1];
    assert s == init + [last];
    var d := last as nat - '0' as nat;
    assert ['0' + (d % 10) as char] == [last];
    if init == "" {
      k := 0;
    } else {
      k := DigitsAreZeros(init);
      if Value(init) == 0 {
        assert Decimal(0) == "0" && Decimal(d) == [last];
        k := k + 1;
        assert Zeros(k) == Zeros(k - 1) + "0";
      } else {
        assert Value(s) / 10 == Value(init) && Value(s) % 10 == d;
        assert Decimal(Value(s)) == Decimal(Value(init)) + [last];
      }
    }
  }

  /** Parsing accepts exactly the numerals of the numbers in range. */
  lemma ParseNatExactly(s: string, max: nat, n: nat)
    ensures ParseNat(s, max) == Some(n) <==> n <= max && Numeral(s, n)
  {
    var digits := if s != "" && s[0] == '+' then s[1..] else s;
    if ParseNat(s, max) == Some(n) {
      var k := DigitsAreZeros(digits);
      assert s == digits || s == "+" + digits;
    }
    if n <= max && Numeral(s, n) {
      var k: nat :| s == Zeros(k) + Decimal(n) || s == "+" + (Zeros(k) + Decimal(n));
      ZerosAreDigits(k, n);
      var body := Zeros(k) + Decimal(n);
      assert body[0] != '+' by {
        assert Digit(body[0]);
      }
      assert digits == body;
    }
  }

  // ---------------------------------------------------------------- lines

  /** The line read from what stands between two newlines: one carriage return at its end is dropped. */
  ghost predicate ReadAs(raw: string, line: string) {
    if exists front :: raw == front + "\r" then raw == line + "\r" else line == raw
  }

  /** The lines read from these raw ones: in order, those that are empty left out. */
  ghost predicate AllRead(raws: seq<string>, lines: seq<string>)
    decreases |raws|
  {
    if raws == [] then lines == []
    else if ReadAs(raws[0], "") then AllRead(raws[1..], lines)
    else lines != [] && ReadAs(raws[0], lines[0]) && AllRead(raws[1..], lines[1..])
  }

  ghost predicate Unbroken(raws: seq<string>) {
    forall raw | raw in raws :: '\n' !in raw
  }

  lemma ReadAsWithout(raw: string, line: string)
    ensures ReadAs(raw, line) <==> line == WithoutReturn(raw)
  {
    if raw != "" && raw[|raw| - 1] == '\r' {
      assert raw == raw[..|raw| - 1] + "\r";
    }
    forall front | raw == front + "\r"
      ensures raw != "" && raw[|raw| - 1] == '\r' && raw[..|raw| - 1] == front
    {
    }
  }

  lemma FirstLine(raw: string, rest: string)
    requires '\n' !in raw
    ensures Lines(raw + "\n" + rest) ==
            if WithoutReturn(raw) == "" then Lines(rest) else [WithoutReturn(raw)] + Lines(rest)
  {
    hide WithoutReturn, LineEnd;
    var text := raw + "\n" + rest;
    assert text[..|raw|] == raw && text[|raw| + 1..] == rest;
    LineEndIs(text, |raw|);
  }

  /** Reading the lines of a text: every raw line ended by a newline, read in turn. */
  lemma {:induction false} LinesRead(raws: seq<string>)
    requires Unbroken(raws)
    ensures AllRead(raws, Lines(Joined(raws)))
  {
    if raws != [] {
      var raw, rest := raws[0], Joined(raws[1..]);
      assert Unbroken(raws[1..]);
      LinesRead(raws[1..]);
      FirstLine(raw, rest);
      ReadAsWithout(raw, WithoutReturn(raw));
      ReadAsWithout(raw, "");
      hide ReadAs, WithoutReturn, Lines;
    }
  }

  lemma {:induction false} RawLines(text: string) returns (raws: seq<string>)
    requires text != "" ==> text[|text| - 1] == '\n'
    ensures Unbroken(raws) && text == Joined(raws)
    decreases |text|
  {
    if text == "" {
      raws := [];
    } else {
      var end := LineEnd(text);
      assert text[|text| - 1] in text;
      var rest := text[end + 1..];
      raws := RawLines(rest);
      raws := [text[..end]] + raws;
      assert text == text[..end] + "\n" + rest;
    }
  }

  /** A text that ends in a newline has raw lines, and its lines are what is read from them. */
  lemma LinesExactly(text: string)
    requires text != "" && text[|text| - 1] == '\n'
    ensures exists raws :: Unbroken(raws) && text == Joined(raws) && AllRead(raws, Lines(text))
  {
    var raws := RawLines(text);
    LinesRead(raws);
    assert text == Joined(raws);
  }
}
