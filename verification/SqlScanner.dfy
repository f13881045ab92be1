/**
 The editor's external scanner: raw SQL blocks in braces, and interpolated strings. A lexer
 looks one character ahead and only moves forwards.

 The functions ending in `End` are the reference: where a construct that starts here stops,
 or nothing when the text runs out first.
 */
module SqlScanner {
  import opened Wrappers

  // ---------------------------------------------------------------- characters

  /** The next character; the end of the text reads as NUL. */
  function At(t: string, p: nat): char {
    if p < |t| then t[p] else '\0'
  }

  predicate AsciiLetter(c: char) {
    'a' <= c <= 'z' || 'A' <= c <= 'Z' || c == '_'
  }

  predicate TagCharacter(c: char) {
    AsciiLetter(c) || '0' <= c <= '9'
  }

  type Ranges = seq<(int, int)>

  /** The generated table: intervals in ascending order, apart from each other. */
  ghost predicate SortedRanges(ranges: Ranges) {
    forall i, j | 0 <= i < j < |ranges| :: ranges[i].0 <= ranges[i].1 < ranges[j].0
  }

  predicate IdentifierCharacter(ranges: Ranges, c: char) {
    if c as int < 0x80 then TagCharacter(c) || c == '$'
    else exists i :: 0 <= i < |ranges| && ranges[i].0 <= c as int <= ranges[i].1
  }

  /** `identifier_character`: binary search in the table. */
  method FindIdentifier(ranges: Ranges, c: char) returns (found: bool)
    requires SortedRanges(ranges)
    ensures found == IdentifierCharacter(ranges, c)
  {
    if c as int < 0x80 {
      return TagCharacter(c) || c == '$';
    }
    var low, high := 0, |ranges|;
    while low < high
      invariant 0 <= low <= high <= |ranges|
      invariant forall i | 0 <= i < |ranges| && !(low <= i < high) ::
                  !(ranges[i].0 <= c as int <= ranges[i].1)
    {
      var middle := low + (high - low) / 2;
      if (c as int) < ranges[middle].0 {
        high := middle;
      } else if ranges[middle].1 < c as int {
        low := middle + 1;
      } else {
        return true;
      }
    }
    return false;
  }

  // ---------------------------------------------------------------- reference positions

  /** Inside quotes, after the opening one. SQL doubles its delimiter; strings use backslashes. */
  function QuotedEnd(t: string, p: nat, quote: char, sql: bool): (r: Option<nat>)
    ensures r.Some? ==> p < r.value <= |t|
    decreases |t| - p
  {
    if p >= |t| then None
    else if !sql && quote == '"' && t[p] == '\\' then
      if p + 1 >= |t| then None else QuotedEnd(t, p + 2, quote, sql)
    else if t[p] != quote then QuotedEnd(t, p + 1, quote, sql)
    else if sql && p + 1 < |t| && t[p + 1] == quote then QuotedEnd(t, p + 2, quote, sql)
    else Some(p + 1)
  }

  /** Inside an expression island, after its opening brace. */
  function InterpolationEnd(t: string, p: nat, depth: nat): (r: Option<nat>)
    requires depth > 0
    ensures r.Some? ==> p < r.value <= |t|
    decreases |t| - p
  {
    if p >= |t| then None
    else if t[p] == '\'' || t[p] == '"' then
      var q := QuotedEnd(t, p + 1, t[p], false);
      if q.None? then None else InterpolationEnd(t, q.value, depth)
    else if t[p] == '{' then InterpolationEnd(t, p + 1, depth + 1)
    else if t[p] != '}' then InterpolationEnd(t, p + 1, depth)
    else if depth > 1 then InterpolationEnd(t, p + 1, depth - 1)
    else Some(p + 1)
  }

  /** Inside a block comment, after its opening; comments nest. */
  function CommentEnd(t: string, p: nat, depth: nat): (r: Option<nat>)
    requires depth > 0
    ensures r.Some? ==> p < r.value <= |t|
    decreases |t| - p
  {
    if p >= |t| then None
    else if t[p] == '/' && At(t, p + 1) == '*' then CommentEnd(t, p + 2, depth + 1)
    else if t[p] == '*' && At(t, p + 1) == '/' then
      if depth > 1 then CommentEnd(t, p + 2, depth - 1) else Some(p + 2)
    else CommentEnd(t, p + 1, depth)
  }

  /** The first position from `p` on that cannot continue a tag. */
  function TagEnd(t: string, p: nat): (r: nat)
    requires p <= |t|
    ensures p <= r <= |t| && !TagCharacter(At(t, r))
    ensures forall i | p <= i < r :: TagCharacter(t[i])
    decreases |t| - p
  {
    if p < |t| && TagCharacter(t[p]) then TagEnd(t, p + 1) else p
  }

  /** Naive search: the end of the first occurrence of `word` starting at or after `p`. */
  function SearchEnd(t: string, word: string, p: nat): (r: Option<nat>)
    ensures r.Some? ==> p + |word| <= r.value <= |t|
    decreases |t| - p
  {
    if p + |word| > |t| then None
    else if t[p..p + |word|] == word then Some(p + |word|)
    else if p == |t| then None
    else SearchEnd(t, word, p + 1)
  }

  /** After a `$` that may open a region: through the closing tag, or past a partial tag. */
  function DollarEnd(t: string, p: nat): (r: Option<nat>)
    requires 0 < p <= |t| && t[p - 1] == '$'
    ensures r.Some? ==> p <= r.value <= |t|
  {
    var n := TagEnd(t, p);
    if At(t, n) != '$' then Some(n) else SearchEnd(t, t[p - 1..n + 1], n + 1)
  }

  /** The end of the current line, or of the text. */
  function LineEnd(t: string, p: nat): (r: nat)
    requires p <= |t|
    ensures p <= r <= |t| && (r < |t| ==> t[r] == '\n')
    ensures forall i | p <= i < r :: t[i] != '\n'
    decreases |t| - p
  {
    if p < |t| && t[p] != '\n' then LineEnd(t, p + 1) else p
  }

  /** Inside a raw block, after its opening brace: where the matching brace has been passed. */
  function BlockEnd(ranges: Ranges, t: string, p: nat, depth: nat, previousIdentifier: bool): (r: Option<nat>)
    requires depth > 0
    ensures r.Some? ==> p < r.value <= |t|
    decreases |t| - p
  {
    if p >= |t| then None
    else
      var c, next := t[p], At(t, p + 1);
      if c == '\'' || c == '"' then
        var q := QuotedEnd(t, p + 1, c, true);
        if q.None? then None else BlockEnd(ranges, t, q.value, depth, false)
      else if c == '/' && next == '*' then
        var q := CommentEnd(t, p + 2, 1);
        if q.None? then None else BlockEnd(ranges, t, q.value, depth, false)
      else if c == '-' && next == '-' then
        BlockEnd(ranges, t, LineEnd(t, p + 1), depth, false)
      else if c == '$' && next == '{' then
        var q := InterpolationEnd(t, p + 2, 1);
        if q.None? then None else BlockEnd(ranges, t, q.value, depth, false)
      else if c == '$' && !previousIdentifier && (next == '$' || AsciiLetter(next)) then
        var q := DollarEnd(t, p + 1);
        if q.None? then None else BlockEnd(ranges, t, q.value, depth, true)
      else if c == '\\' then
        if p + 1 >= |t| then None
        else BlockEnd(ranges, t, p + 2, depth, IdentifierCharacter(ranges, next))
      else if c == '}' && depth == 1 then Some(p + 1)
      else
        BlockEnd(ranges, t, p + 1,
                 if c == '{' then depth + 1 else if c == '}' then depth - 1 else depth,
                 IdentifierCharacter(ranges, c))
  }

  const MAX_NESTING: nat := 128

  /** How far an island or string reaches, and whether an island met a quote on the way. */
  datatype Reach = Reach(end: nat, complex: bool)

  function Complex(reach: Option<Reach>): Option<Reach> {
    if reach.None? then None else Some(reach.value.(complex := true))
  }

  /** Inside an interpolated string, after its opening quote. */
  function StringEnd(t: string, p: nat, nesting: nat): (r: Option<Reach>)
    ensures r.Some? ==> p < r.value.end <= |t|
    decreases |t| - p
  {
    if p >= |t| then None
    else if t[p] == '"' then Some(Reach(p + 1, false))
    else if t[p] == '\\' then if p + 1 >= |t| then None else StringEnd(t, p + 2, nesting)
    else if t[p] == '$' && At(t, p + 1) == '{' then
      var island := IslandEnd(t, p + 2, nesting + 1, 1);
      if island.None? then None
      else
        var rest := StringEnd(t, island.value.end, nesting);
        if island.value.complex then Complex(rest) else rest
    else StringEnd(t, p + 1, nesting)
  }

  /** Inside an island of an interpolated string, after its opening brace. */
  function IslandEnd(t: string, p: nat, nesting: nat, braces: nat): (r: Option<Reach>)
    requires braces > 0
    ensures r.Some? ==> p < r.value.end <= |t|
    decreases |t| - p
  {
    if p >= |t| then None
    else if t[p] == '"' then
      if nesting >= MAX_NESTING then None
      else
        var inner := StringEnd(t, p + 1, nesting);
        if inner.None? then None else Complex(IslandEnd(t, inner.value.end, nesting, braces))
    else if t[p] == '%' || (t[p] == '/' && At(t, p + 1) == '/') then
      var end := LineEnd(t, p + 1);
      var rest := IslandEnd(t, end, nesting, braces);
      if exists i :: p < i < end && t[i] == '"' then Complex(rest) else rest
    else if t[p] == '/' && At(t, p + 1) == '*' then
      var end := SearchEnd(t, "*/", p + 2);
      if end.None? then None
      else
        var rest := IslandEnd(t, end.value, nesting, braces);
        if exists i :: p + 1 < i < end.value && t[i] == '"' then Complex(rest) else rest
    else if t[p] == '{' then IslandEnd(t, p + 1, nesting, braces + 1)
    else if t[p] != '}' then IslandEnd(t, p + 1, nesting, braces)
    else if braces > 1 then IslandEnd(t, p + 1, nesting, braces - 1)
    else Some(Reach(p + 1, false))
  }

  // ---------------------------------------------------------------- the tag matcher

  /** A delimiter: a dollar sign at each end and none in between. */
  ghost predicate IsDelimiter(tag: string) {
    && |tag| >= 2 && tag[0] == '$' && tag[|tag| - 1] == '$'
    && forall i | 0 < i < |tag| - 1 :: tag[i] != '$'
  }

  ghost predicate Occurs(t: string, word: string, s: nat) {
    s + |word| <= |t| && t[s..s + |word|] == word
  }

  /** No occurrence starts before `q`, so the search may as well start there. */
  lemma {:induction false} SearchSkips(t: string, word: string, p: nat, q: nat)
    requires p <= q <= |t|
    requires forall s | p <= s < q :: !Occurs(t, word, s)
    ensures SearchEnd(t, word, p) == SearchEnd(t, word, q)
    decreases q - p
  {
    if p < q {
      assert !Occurs(t, word, p);
      if p + |word| > |t| {
        SearchTooLate(t, word, q);
      } else {
        SearchSkips(t, word, p + 1, q);
      }
    }
  }

  lemma SearchTooLate(t: string, word: string, p: nat)
    requires p + |word| > |t|
    ensures SearchEnd(t, word, p).None?
  {
  }

  /** The search stops at the first occurrence, and fails only when there is none. */
  lemma {:induction false} SearchFinds(t: string, word: string, p: nat)
    requires p <= |t|
    ensures SearchEnd(t, word, p).None? <==> forall s | p <= s :: !Occurs(t, word, s)
    ensures SearchEnd(t, word, p).Some? ==>
              var s := SearchEnd(t, word, p).value - |word|;
              p <= s && Occurs(t, word, s) && forall s' | p <= s' < s :: !Occurs(t, word, s')
    decreases |t| - p
  {
    if p + |word| <= |t| {
      assert Occurs(t, word, p) <==> t[p..p + |word|] == word;
      if t[p..p + |word|] != word && p < |t| {
        SearchFinds(t, word, p + 1);
      }
    }
  }

  /** The first `matched` characters of `word` stand at `start`. */
  ghost predicate Holds(t: string, word: string, start: nat, matched: nat) {
    matched <= |word| && start + matched <= |t| && forall i | 0 <= i < matched :: t[start + i] == word[i]
  }

  lemma HoldsNothing(t: string, word: string, start: nat)
    requires start <= |t|
    ensures Holds(t, word, start, 0)
    ensures IsDelimiter(word) ==> |word| >= 2
  {
  }

  /** Reading the expected character matches one more. */
  lemma MatchGrows(t: string, word: string, start: nat, matched: nat)
    requires Holds(t, word, start, matched) && matched < |word| && start + matched < |t|
    requires t[start + matched] == word[matched]
    ensures Holds(t, word, start, matched + 1)
    ensures matched + 1 == |word| ==> SearchEnd(t, word, start) == Some(start + |word|)
  {
    if matched + 1 == |word| {
      assert t[start..start + |word|] == word;
    }
  }

  lemma DiffersAt(t: string, word: string, s: nat, i: nat)
    requires i < |word| && (s + i < |t| ==> t[s + i] != word[i])
    ensures !Occurs(t, word, s)
  {
    if s + |word| <= |t| {
      assert t[s..s + |word|][i] == t[s + i];
    }
  }

  /**
   After a mismatch the matcher keeps at most the single character just read: a delimiter has
   no dollar sign inside, so no longer proper prefix of it can end here.
   */
  lemma MismatchRestarts(t: string, word: string, start: nat, matched: nat)
    requires IsDelimiter(word) && matched < |word| && start + matched < |t|
    requires Holds(t, word, start, matched)
    requires t[start + matched] != word[matched]
    ensures
      var here := start + matched;
      var kept := if t[here] == '$' then 1 else 0;
      && Holds(t, word, here + 1 - kept, kept) && kept < |word|
      && SearchEnd(t, word, start) == SearchEnd(t, word, here + 1 - kept)
  {
    var here := start + matched;
    var restart := if t[here] == '$' then here else here + 1;
    forall s | start <= s < restart
      ensures !Occurs(t, word, s)
    {
      if s == start {
        DiffersAt(t, word, s, matched);
      } else {
        assert s < here ==> t[start + (s - start)] == word[s - start];
        DiffersAt(t, word, s, 0);
      }
    }
    SearchSkips(t, word, start, restart);
  }

  // ---------------------------------------------------------------- the lexer

  datatype Symbol = SqlRawBlock | InterpolatedString

  class Lexer {
    const text: string
    var pos: nat
    var markedEnd: nat
    var symbol: Option<Symbol>

    constructor (text: string, pos: nat)
      requires pos <= |text|
      ensures this.text == text && this.pos == pos && symbol == None
    {
      this.text, this.pos := text, pos;
      markedEnd, symbol := pos, None;
    }

    ghost predicate Valid()
      reads this
    {
      pos <= |text|
    }

    function Lookahead(): char
      reads this
    {
      At(text, pos)
    }

    predicate Eof()
      reads this
    {
      pos >= |text|
    }

    /** Moves over one character; at the end of the text nothing moves. */
    method Advance()
      requires Valid()
      modifies this`pos
      ensures Valid() && pos == if old(Eof()) then old(pos) else old(pos) + 1
    {
      if pos < |text| {
        pos := pos + 1;
      }
    }

    /** `quoted`: stands on the opening quote. */
    method Quoted(sql: bool) returns (ok: bool)
      requires Valid() && (Lookahead() == '\'' || Lookahead() == '"')
      modifies this`pos
      ensures Valid()
      ensures var end := QuotedEnd(text, old(pos) + 1, old(Lookahead()), sql);
              ok == end.Some? && (ok ==> pos == end.value)
    {
      var quote := Lookahead();
      Advance();
      while !Eof()
        invariant Valid() && (quote == '\'' || quote == '"')
        invariant QuotedEnd(text, old(pos) + 1, quote, sql) == QuotedEnd(text, pos, quote, sql)
        decreases |text| - pos
      {
        var c := Lookahead();
        Advance();
        if !sql && quote == '"' && c == '\\' {
          if Eof() {
            return false;
          }
          Advance();
        } else if c == quote {
          if sql && Lookahead() == quote {
            Advance();
          } else {
            return true;
          }
        }
      }
      return false;
    }

    /** `interpolation`: stands after the opening brace of an island. */
    method Interpolation() returns (ok: bool)
      requires Valid()
      modifies this`pos
      ensures Valid()
      ensures var end := InterpolationEnd(text, old(pos), 1);
              ok == end.Some? && (ok ==> pos == end.value)
    {
      var depth := 1;
      while !Eof()
        invariant Valid() && depth > 0
        invariant InterpolationEnd(text, old(pos), 1) == InterpolationEnd(text, pos, depth)
        decreases |text| - pos
      {
        var c := Lookahead();
        if c == '\'' || c == '"' {
          var closed := Quoted(false);
          if !closed {
            return false;
          }
          continue;
        }
        Advance();
        if c == '{' {
          depth := depth + 1;
        }
        if c == '}' {
          depth := depth - 1;
          if depth == 0 {
            return true;
          }
        }
      }
      return false;
    }

    /** `block_comment`: stands after the opening of a comment. */
    method BlockComment() returns (ok: bool)
      requires Valid()
      modifies this`pos
      ensures Valid()
      ensures var end := CommentEnd(text, old(pos), 1);
              ok == end.Some? && (ok ==> pos == end.value)
    {
      var depth := 1;
      while !Eof()
        invariant Valid() && depth > 0
        invariant CommentEnd(text, old(pos), 1) == CommentEnd(text, pos, depth)
        decreases |text| - pos
      {
        var c := Lookahead();
        Advance();
        if c == '/' && Lookahead() == '*' {
          Advance();
          depth := depth + 1;
        } else if c == '*' && Lookahead() == '/' {
          Advance();
          depth := depth - 1;
          if depth == 0 {
            return true;
          }
        }
      }
      return false;
    }

    /** Collects the tag into a buffer that doubles when only one slot is left. */
    method ReadTag() returns (tag: array<char>, length: nat)
      requires Valid() && 0 < pos && text[pos - 1] == '$'
      modifies this`pos
      ensures Valid() && pos == TagEnd(text, old(pos))
      ensures fresh(tag) && length == pos - old(pos) + 1 && length + 1 <= tag.Length
      ensures tag[..length] == text[old(pos) - 1..pos]
    {
      length := 1;
      tag := new char[32];
      tag[0] := '$';
      while TagCharacter(Lookahead())
        invariant Valid() && old(pos) <= pos && fresh(tag)
        invariant TagEnd(text, old(pos)) == TagEnd(text, pos)
        invariant length == pos - old(pos) + 1 && length + 1 <= tag.Length
        invariant tag[..length] == text[old(pos) - 1..pos]
        decreases |text| - pos
      {
        if length + 1 == tag.Length {
          var grown := new char[2 * tag.Length];
          forall i | 0 <= i < tag.Length {
            grown[i] := tag[i];
          }
          assert grown[..length] == tag[..length];
          tag := grown;
        }
        ghost var before := tag[..length];
        tag[length] := Lookahead();
        assert tag[..length + 1] == before + [Lookahead()];
        assert text[old(pos) - 1..pos + 1] == text[old(pos) - 1..pos] + [text[pos]];
        length := length + 1;
        Advance();
      }
    }

    /** `dollar_region`: stands after the dollar sign. */
    method DollarRegion() returns (ok: bool)
      requires Valid() && 0 < pos && text[pos - 1] == '$'
      modifies this`pos
      ensures Valid()
      ensures var end := DollarEnd(text, old(pos));
              ok == end.Some? && (ok ==> pos == end.value)
    {
      var tag, length := ReadTag();
      if Lookahead() != '$' {
        return true;
      }
      ghost var before, n := tag[..length], pos;
      tag[length] := '$';
      length := length + 1;
      Advance();
      ghost var word := text[old(pos) - 1..n + 1];
      assert tag[..length] == before + ['$'] == word;
      assert forall i | 0 <= i < length :: tag[i] == tag[..length][i];
      assert forall i | 0 < i < |word| - 1 :: word[i] == text[old(pos) - 1 + i];
      assert IsDelimiter(word);
      ok := MatchTag(tag, length, word);
    }

    /** The matching loop: on a mismatch it falls back to one matched character or to none. */
    method MatchTag(tag: array<char>, length: nat, ghost word: string) returns (ok: bool)
      requires Valid() && |word| == length <= tag.Length && IsDelimiter(word)
      requires forall i | 0 <= i < length :: tag[i] == word[i]
      modifies this`pos
      ensures Valid()
      ensures var end := SearchEnd(text, word, old(pos));
              ok == end.Some? && (ok ==> pos == end.value)
    {
      hide SearchEnd, Holds, IsDelimiter;
      var matched := 0;
      HoldsNothing(text, word, pos);
      while !Eof()
        invariant Valid() && matched < length && old(pos) + matched <= pos
        invariant Holds(text, word, pos - matched, matched)
        invariant SearchEnd(text, word, old(pos)) == SearchEnd(text, word, pos - matched)
        decreases |text| - pos
      {
        var c := Lookahead();
        if c == tag[matched] {
          MatchGrows(text, word, pos - matched, matched);
          matched := matched + 1;
        } else {
          MismatchRestarts(text, word, pos - matched, matched);
          matched := if c == '$' then 1 else 0;
        }
        Advance();
        if matched == length {
          return true;
        }
      }
      SearchTooLate(text, word, pos - matched);
      return false;
    }

    /** The end of a line comment. */
    method SkipLine()
      requires Valid()
      modifies this`pos
      ensures Valid() && pos == LineEnd(text, old(pos))
    {
      while !Eof() && Lookahead() != '\n'
        invariant Valid() && LineEnd(text, old(pos)) == LineEnd(text, pos)
        decreases |text| - pos
      {
        Advance();
      }
    }

    /** The SQL branch of the scan: stands on the opening brace. */
    method ScanBlock(ranges: Ranges) returns (ok: bool)
      requires Valid() && !Eof() && SortedRanges(ranges)
      modifies this
      ensures Valid()
      ensures var end := BlockEnd(ranges, text, old(pos) + 1, 1, false);
              && ok == end.Some?
              && (ok ==> pos == markedEnd == end.value && symbol == Some(SqlRawBlock))
    {
      hide QuotedEnd, CommentEnd, LineEnd, InterpolationEnd, DollarEnd, AsciiLetter, IdentifierCharacter, SortedRanges;
      Advance();
      var depth := 1;
      var previousIdentifier := false;
      while !Eof()
        invariant Valid() && depth > 0
        invariant BlockEnd(ranges, text, old(pos) + 1, 1, false) ==
            BlockEnd(ranges, text, pos, depth, previousIdentifier)
        decreases |text| - pos
      {
        var c := Lookahead();
        if c == '\'' || c == '"' {
          var closed := Quoted(true);
          if !closed {
            return false;
          }
          previousIdentifier := false;
          continue;
        }
        Advance();
        if c == '/' && Lookahead() == '*' {
          Advance();
          var closed := BlockComment();
          if !closed {
            return false;
          }
          previousIdentifier := false;
          continue;
        }
        if c == '-' && Lookahead() == '-' {
          SkipLine();
          previousIdentifier := false;
          continue;
        }
        if c == '$' && Lookahead() == '{' {
          Advance();
          var closed := Interpolation();
          if !closed {
            return false;
          }
          previousIdentifier := false;
          continue;
        }
        if c == '$' && !previousIdentifier && (Lookahead() == '$' || AsciiLetter(Lookahead())) {
          var closed := DollarRegion();
          if !closed {
            return false;
          }
          previousIdentifier := true;
          continue;
        }
        if c == '\\' {
          if Eof() {
            return false;
          }
          previousIdentifier := FindIdentifier(ranges, Lookahead());
          Advance();
          continue;
        }
        if c == '{' {
          depth := depth + 1;
        }
        if c == '}' {
          depth := depth - 1;
          if depth == 0 {
            markedEnd := pos;
            symbol := Some(SqlRawBlock);
            return true;
          }
        }
        previousIdentifier := FindIdentifier(ranges, c);
      }
      return false;
    }

    /** `interpolation_string`, with the flag raised by quotes inside islands. */
    method InterpolationString(nesting: nat, complex: bool) returns (ok: bool, complex': bool)
      requires Valid()
      modifies this`pos
      ensures Valid() && old(pos) <= pos
      ensures var end := if nesting >= MAX_NESTING || old(Lookahead()) != '"' then None
                         else StringEnd(text, old(pos) + 1, nesting);
              ok == end.Some? && (ok ==> pos == end.value.end && complex' == (complex || end.value.complex))
      decreases |text| - pos, 0
    {
      hide IslandEnd;
      complex' := complex;
      if nesting >= MAX_NESTING || Lookahead() != '"' {
        return false, complex';
      }
      Advance();
      while !Eof()
        invariant Valid() && old(pos) < pos && (complex ==> complex')
        invariant
          var whole, rest := StringEnd(text, old(pos) + 1, nesting), StringEnd(text, pos, nesting);
          && (whole.Some? <==> rest.Some?)
          && (whole.Some? ==> whole.value.end == rest.value.end &&
                              (complex || whole.value.complex) == (complex' || rest.value.complex))
        decreases |text| - pos
      {
        var c := Lookahead();
        Advance();
        if c == '"' {
          return true, complex';
        }
        if c == '\\' {
          if Eof() {
            return false, complex';
          }
          Advance();
        } else if c == '$' && Lookahead() == '{' {
          Advance();
          ok, complex' := StringIsland(nesting + 1, complex');
          if !ok {
            return false, complex';
          }
        }
      }
      return false, complex';
    }

    /** `string_island`: stands after the opening brace. */
    method StringIsland(nesting: nat, complex: bool) returns (ok: bool, complex': bool)
      requires Valid()
      modifies this`pos
      ensures Valid() && old(pos) <= pos
      ensures var end := IslandEnd(text, old(pos), nesting, 1);
              ok == end.Some? && (ok ==> pos == end.value.end && complex' == (complex || end.value.complex))
      decreases |text| - pos, 1
    {
      hide StringEnd, LineEnd, SearchEnd;
      complex' := complex;
      var braces := 1;
      while !Eof()
        invariant Valid() && old(pos) <= pos && braces > 0 && (complex ==> complex')
        invariant
          var whole, rest := IslandEnd(text, old(pos), nesting, 1), IslandEnd(text, pos, nesting, braces);
          && (whole.Some? <==> rest.Some?)
          && (whole.Some? ==> whole.value.end == rest.value.end &&
                              (complex || whole.value.complex) == (complex' || rest.value.complex))
        decreases |text| - pos
      {
        var c := Lookahead();
        if c == '"' {
          complex' := true;
          ok, complex' := InterpolationString(nesting, complex');
          if !ok {
            return false, complex';
          }
          continue;
        }
        Advance();
        if c == '%' || (c == '/' && Lookahead() == '/') {
          complex' := SkipIslandLine(complex');
        } else if c == '/' && Lookahead() == '*' {
          Advance();
          ok, complex' := SkipIslandComment(complex');
          if !ok {
            return false, complex';
          }
        } else if c == '{' {
          braces := braces + 1;
        } else if c == '}' {
          braces := braces - 1;
          if braces == 0 {
            return true, complex';
          }
        }
      }
      return false, complex';
    }

    /** The rest of a line inside an island. */
    method SkipIslandLine(complex: bool) returns (complex': bool)
      requires Valid()
      modifies this`pos
      ensures Valid() && pos == LineEnd(text, old(pos))
      ensures complex' == (complex || exists i :: old(pos) <= i < pos && text[i] == '"')
    {
      complex' := complex;
      while !Eof() && Lookahead() != '\n'
        invariant Valid() && old(pos) <= pos && LineEnd(text, old(pos)) == LineEnd(text, pos)
        invariant complex' == (complex || exists i :: old(pos) <= i < pos && text[i] == '"')
        decreases |text| - pos
      {
        if Lookahead() == '"' {
          complex' := true;
        }
        Advance();
      }
    }

    /** A block comment inside an island: it ends at the first closing mark, without nesting. */
    method SkipIslandComment(complex: bool) returns (ok: bool, complex': bool)
      requires Valid()
      modifies this`pos
      ensures Valid() && old(pos) <= pos
      ensures var end := SearchEnd(text, "*/", old(pos));
              && ok == end.Some?
              && (ok ==> pos == end.value &&
                         complex' == (complex || exists i :: old(pos) <= i < pos && text[i] == '"'))
    {
      complex' := complex;
      while !Eof()
        invariant Valid() && old(pos) <= pos && SearchEnd(text, "*/", old(pos)) == SearchEnd(text, "*/", pos)
        invariant complex' == (complex || exists i :: old(pos) <= i < pos && text[i] == '"')
        decreases |text| - pos
      {
        var previous := Lookahead();
        if previous == '"' {
          complex' := true;
        }
        Advance();
        if previous == '*' && Lookahead() == '/' {
          assert text[pos - 1..pos + 1] == "*/";
          Advance();
          return true, complex';
        }
        if pos < |text| {
          assert text[pos - 1..pos + 1][0] == previous && text[pos - 1..pos + 1][1] == text[pos];
        }
      }
      SearchTooLate(text, "*/", pos);
      return false, complex';
    }

    /** The whole scan: leading blanks, then whichever of the two symbols is wanted and starts here. */
    method Scan(ranges: Ranges, space: char -> bool, wantBlock: bool, wantString: bool) returns (ok: bool)
      requires Valid() && SortedRanges(ranges) && !space('\0')
      modifies this
      ensures Valid()
      ensures
        var start := SkipBlanks(text, old(pos), space);
        var string_ := if At(text, start) == '"' then StringEnd(text, start + 1, 0) else None;
        var block := if At(text, start) == '{' then BlockEnd(ranges, text, start + 1, 1, false) else None;
        if wantString && At(text, start) == '"' then
          && ok == (string_.Some? && string_.value.complex)
          && (ok ==> markedEnd == string_.value.end && symbol == Some(InterpolatedString))
        else
          && ok == (wantBlock && block.Some?)
          && (ok ==> markedEnd == block.value && symbol == Some(SqlRawBlock))
    {
      while space(Lookahead())
        invariant Valid() && SkipBlanks(text, old(pos), space) == SkipBlanks(text, pos, space)
        decreases |text| - pos
      {
        Advance();
      }
      if wantString && Lookahead() == '"' {
        var complex;
        ok, complex := InterpolationString(0, false);
        if !ok || !complex {
          return false;
        }
        markedEnd := pos;
        symbol := Some(InterpolatedString);
        return true;
      }
      if !wantBlock || Lookahead() != '{' {
        return false;
      }
      ok := ScanBlock(ranges);
    }
  }

  function SkipBlanks(t: string, p: nat, space: char -> bool): (r: nat)
    requires p <= |t|
    ensures p <= r <= |t| && (r < |t| ==> !space(t[r])) && forall i | p <= i < r :: space(t[i])
    decreases |t| - p
  {
    if p < |t| && space(t[p]) then SkipBlanks(t, p + 1, space) else p
  }
}
