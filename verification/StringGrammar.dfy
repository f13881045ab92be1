/**
 Interpolated strings as trees: strings hold islands of code, islands hold strings. The scanner
 accepts exactly the printed well-formed strings, nested no deeper than its limit, and flags
 exactly those in which some island holds a quote.
 */
module StringGrammar {
  import opened Wrappers
  import opened SqlScanner
  import opened SqlGrammar

  // ---------------------------------------------------------------- trees

  /** The inside of an interpolated string. */
  datatype Words = NoWords | Char(c: char, more: Words) | Slashed(c: char, more: Words) | Hole(code: Code, more: Words)

  /** The inside of an island. */
  datatype Code =
    | NoCode
    | Symbol(c: char, next: Code)
    | Nest(inner: Code, next: Code)
    | Inner(words: Words, next: Code)
    | ToLineEnd(slashes: bool, body: string, next: Code)
    | Comment(body: string, next: Code)

  function LineMark(slashes: bool): string {
    if slashes then "//" else "%"
  }

  function PrintWords(words: Words): string {
    match words
    case NoWords => ""
    case Char(c, more) => [c] + PrintWords(more)
    case Slashed(c, more) => ['\\', c] + PrintWords(more)
    case Hole(code, more) => "${" + ((PrintCode(code) + "}") + PrintWords(more))
  }

  function PrintCode(code: Code): string {
    match code
    case NoCode => ""
    case Symbol(c, next) => [c] + PrintCode(next)
    case Nest(inner, next) => "{" + ((PrintCode(inner) + "}") + PrintCode(next))
    case Inner(words, next) => "\"" + ((PrintWords(words) + "\"") + PrintCode(next))
    case ToLineEnd(slashes, body, next) => LineMark(slashes) + (body + PrintCode(next))
    case Comment(body, next) => "/*" + ((body + "*/") + PrintCode(next))
  }

  /** Characters stand for themselves only where nothing else would be read, and `nesting` islands are open. */
  predicate GoodWords(words: Words, nesting: nat) {
    match words
    case NoWords => true
    case Char(c, more) =>
      && c != '"' && c != '\\' && !(c == '$' && First(PrintWords(more), '"') == '{')
      && GoodWords(more, nesting)
    case Slashed(_, more) => GoodWords(more, nesting)
    case Hole(code, more) => GoodCode(code, nesting + 1) && GoodWords(more, nesting)
  }

  predicate GoodCode(code: Code, nesting: nat) {
    match code
    case NoCode => true
    case Symbol(c, next) =>
      && c != '"' && c != '%' && c != '{' && c != '}'
      && !(c == '/' && (First(PrintCode(next), '}') == '/' || First(PrintCode(next), '}') == '*'))
      && GoodCode(next, nesting)
    case Nest(inner, next) => GoodCode(inner, nesting) && GoodCode(next, nesting)
    case Inner(words, next) => nesting < 128 && GoodWords(words, nesting) && GoodCode(next, nesting)
    case ToLineEnd(_, body, next) =>
      '\n' !in body && First(PrintCode(next), '}') == '\n' && GoodCode(next, nesting)
    case Comment(body, next) => SearchEnd(body + "*/", "*/", 0) == Some(|body| + 2) && GoodCode(next, nesting)
  }

  /** Some island of the string holds a quote. */
  predicate QuoteInHole(words: Words) {
    match words
    case NoWords => false
    case Char(_, more) => QuoteInHole(more)
    case Slashed(_, more) => QuoteInHole(more)
    case Hole(code, more) => QuoteIn(code) || QuoteInHole(more)
  }

  predicate QuoteIn(code: Code) {
    match code
    case NoCode => false
    case Symbol(_, next) => QuoteIn(next)
    case Nest(inner, next) => QuoteIn(inner) || QuoteIn(next)
    case Inner(_, _) => true
    case ToLineEnd(_, body, next) => '"' in body || QuoteIn(next)
    case Comment(body, next) => '"' in body || QuoteIn(next)
  }

  function Marked(complex: bool, reach: Option<Reach>): Option<Reach> {
    if complex then Complex(reach) else reach
  }

  lemma MarkedTwice(a: bool, b: bool, reach: Option<Reach>)
    ensures Marked(a, Marked(b, reach)) == Marked(a || b, reach)
  {
  }

  // ---------------------------------------------------------------- one node

  lemma CharReads(t: string, p: nat, c: char, more: string, nesting: nat)
    requires Here(t, p, [c] + more) && At(t, p + 1 + |more|) == '"'
    requires c != '"' && c != '\\' && !(c == '$' && First(more, '"') == '{')
    ensures StringEnd(t, p, nesting) == StringEnd(t, p + 1, nesting) && Here(t, p + 1, more)
  {
    HereSplits(t, p, [c], more);
    HereOne(t, p, c);
    HereFirst(t, p + 1, more);
    hide Here, IslandEnd, First;
  }

  lemma SlashedReads(t: string, p: nat, c: char, more: string, nesting: nat)
    requires Here(t, p, ['\\', c] + more)
    ensures StringEnd(t, p, nesting) == StringEnd(t, p + 2, nesting) && Here(t, p + 2, more)
  {
    HereSplits(t, p, ['\\', c], more);
    HereTwo(t, p, '\\', c);
    hide Here, IslandEnd;
  }

  lemma HoleOpens(t: string, p: nat, nesting: nat)
    requires Here(t, p, "${")
    ensures var island := IslandEnd(t, p + 2, nesting + 1, 1);
      StringEnd(t, p, nesting) ==
      if island.None? then None else Marked(island.value.complex, StringEnd(t, island.value.end, nesting))
  {
    HereTwo(t, p, '$', '{');
    hide Here, IslandEnd;
  }

  lemma CodeCloses(t: string, p: nat, nesting: nat)
    requires p < |t| && t[p] == '}'
    ensures IslandEnd(t, p, nesting, 1) == Some(Reach(p + 1, false))
  {
    hide StringEnd, LineEnd, SearchEnd;
  }

  lemma WordsClose(t: string, p: nat, nesting: nat)
    requires p < |t| && t[p] == '"'
    ensures StringEnd(t, p, nesting) == Some(Reach(p + 1, false))
  {
    hide IslandEnd;
  }

  lemma SymbolReads(t: string, p: nat, c: char, more: string, nesting: nat, braces: nat)
    requires braces > 0 && Here(t, p, [c] + more) && At(t, p + 1 + |more|) == '}'
    requires c != '"' && c != '%' && c != '{' && c != '}'
    requires !(c == '/' && (First(more, '}') == '/' || First(more, '}') == '*'))
    ensures IslandEnd(t, p, nesting, braces) == IslandEnd(t, p + 1, nesting, braces) && Here(t, p + 1, more)
  {
    HereSplits(t, p, [c], more);
    HereOne(t, p, c);
    HereFirst(t, p + 1, more);
    hide Here, StringEnd, LineEnd, SearchEnd, First;
  }

  lemma NestOpens(t: string, p: nat, nesting: nat, braces: nat)
    requires braces > 0 && p < |t| && t[p] == '{'
    ensures IslandEnd(t, p, nesting, braces) == IslandEnd(t, p + 1, nesting, braces + 1)
  {
    hide StringEnd, LineEnd, SearchEnd;
  }

  lemma NestCloses(t: string, p: nat, nesting: nat, braces: nat)
    requires braces > 1 && p < |t| && t[p] == '}'
    ensures IslandEnd(t, p, nesting, braces) == IslandEnd(t, p + 1, nesting, braces - 1)
  {
    hide StringEnd, LineEnd, SearchEnd;
  }

  lemma InnerOpens(t: string, p: nat, nesting: nat, braces: nat)
    requires braces > 0 && p < |t| && t[p] == '"'
    ensures var inner := StringEnd(t, p + 1, nesting);
      IslandEnd(t, p, nesting, braces) ==
      if nesting >= MAX_NESTING || inner.None? then None
      else Marked(true, IslandEnd(t, inner.value.end, nesting, braces))
  {
    hide StringEnd, LineEnd, SearchEnd;
  }

  lemma QuoteInLine(t: string, p: nat, mark: string, body: string)
    requires Here(t, p, mark + body) && (mark == "%" || mark == "//")
    ensures '"' in body <==> exists i :: p < i < p + |mark| + |body| && t[i] == '"'
  {
    HereSplits(t, p, mark, body);
    assert forall i | 0 <= i < |mark| :: t[p + i] == t[p..p + |mark|][i] == mark[i];
    assert forall i | 0 <= i < |body| :: t[p + |mark| + i] == t[p + |mark|..p + |mark| + |body|][i] == body[i];
    if '"' in body {
      var k :| 0 <= k < |body| && body[k] == '"';
      assert t[p + |mark| + k] == '"';
    }
    forall i | p < i < p + |mark| + |body| && t[i] == '"'
      ensures '"' in body
    {
      if i < p + |mark| {
        assert t[p + (i - p)] == mark[i - p];
      } else {
        assert t[p + |mark| + (i - p - |mark|)] == body[i - p - |mark|];
      }
    }
  }

  lemma LineCodeReads(t: string, p: nat, slashes: bool, body: string, nesting: nat, braces: nat)
    requires braces > 0 && Here(t, p, LineMark(slashes) + body) && '\n' !in body
    requires At(t, p + |LineMark(slashes)| + |body|) == '\n'
    ensures IslandEnd(t, p, nesting, braces) ==
            Marked('"' in body, IslandEnd(t, p + |LineMark(slashes)| + |body|, nesting, braces))
  {
    var mark := LineMark(slashes);
    QuoteInLine(t, p, mark, body);
    HereSplits(t, p, mark, body);
    if slashes {
      HereTwo(t, p, '/', '/');
    } else {
      HereOne(t, p, '%');
    }
    forall i | p + 1 <= i < p + |mark| + |body|
      ensures t[i] != '\n'
    {
      if i < p + |mark| {
        HereAt(t, p, mark, i - p);
      } else {
        HereAt(t, p + |mark|, body, i - p - |mark|);
      }
    }
    LineReads(t, p + 1, p + |mark| + |body|);
    hide Here, StringEnd, LineEnd, SearchEnd;
  }

  lemma QuoteInComment(t: string, p: nat, body: string)
    requires Here(t, p, "/*" + (body + "*/"))
    ensures '"' in body <==> exists i :: p + 1 < i < p + |body| + 4 && t[i] == '"'
  {
    HereThree(t, p, "/*", body, "*/");
    HereTwo(t, p + 2 + |body|, '*', '/');
    assert forall i | 0 <= i < |body| :: t[p + 2 + i] == t[p + 2..p + 2 + |body|][i] == body[i];
    if '"' in body {
      var k :| 0 <= k < |body| && body[k] == '"';
      assert t[p + 2 + k] == '"';
    }
    forall i | p + 1 < i < p + |body| + 4 && t[i] == '"'
      ensures '"' in body
    {
      assert i < p + 2 + |body|;
      assert t[p + 2 + (i - p - 2)] == body[i - p - 2];
    }
  }

  lemma CommentReads(t: string, p: nat, body: string, nesting: nat, braces: nat)
    requires braces > 0 && Here(t, p, "/*" + (body + "*/"))
    requires SearchEnd(t, "*/", p + 2) == Some(p + |body| + 4)
    ensures IslandEnd(t, p, nesting, braces) ==
            Marked('"' in body, IslandEnd(t, p + |body| + 4, nesting, braces))
  {
    QuoteInComment(t, p, body);
    HereSplits(t, p, "/*", body + "*/");
    HereTwo(t, p, '/', '*');
    hide Here, StringEnd, LineEnd, SearchEnd;
  }

  // ---------------------------------------------------------------- printed strings are read

  /** A printed string is passed over up to its closing quote, and flags exactly its quoted holes. */
  lemma {:induction false} WordsRead(t: string, p: nat, words: Words, nesting: nat)
    requires Here(t, p, PrintWords(words)) && At(t, p + |PrintWords(words)|) == '"' && GoodWords(words, nesting)
    ensures StringEnd(t, p, nesting) ==
            Marked(QuoteInHole(words), StringEnd(t, p + |PrintWords(words)|, nesting))
    decreases words, 1
  {
    hide Here, StringEnd, IslandEnd, First;
    match words
    case NoWords =>
    case Char(c, more) =>
      CharReads(t, p, c, PrintWords(more), nesting);
      WordsRead(t, p + 1, more, nesting);
    case Slashed(c, more) =>
      SlashedReads(t, p, c, PrintWords(more), nesting);
      WordsRead(t, p + 2, more, nesting);
    case Hole(code, more) =>
      var a := PrintCode(code);
      HereThree(t, p, "${", a + "}", PrintWords(more));
      HereSplits(t, p + 2, a, "}");
      HereOne(t, p + 2 + |a|, '}');
      CodeReads(t, p + 2, code, nesting + 1, 1);
      CodeCloses(t, p + 2 + |a|, nesting + 1);
      HoleOpens(t, p, nesting);
      WordsRead(t, p + 2 + |a| + 1, more, nesting);
      MarkedTwice(QuoteIn(code), QuoteInHole(more), StringEnd(t, p + |PrintWords(words)|, nesting));
  }

  /** Printed code is passed over up to its closing brace, within any number of open braces. */
  lemma {:induction false} CodeReads(t: string, p: nat, code: Code, nesting: nat, braces: nat)
    requires braces > 0 && GoodCode(code, nesting)
    requires Here(t, p, PrintCode(code)) && At(t, p + |PrintCode(code)|) == '}'
    ensures IslandEnd(t, p, nesting, braces) ==
            Marked(QuoteIn(code), IslandEnd(t, p + |PrintCode(code)|, nesting, braces))
    decreases code, 1
  {
    hide Here, StringEnd, IslandEnd, First, SearchEnd, LineEnd, LineMark;
    var rest := IslandEnd(t, p + |PrintCode(code)|, nesting, braces);
    match code
    case NoCode =>
    case Symbol(c, next) =>
      SymbolReads(t, p, c, PrintCode(next), nesting, braces);
      CodeReads(t, p + 1, next, nesting, braces);
    case Nest(inner, next) =>
      var a := PrintCode(inner);
      HereThree(t, p, "{", a + "}", PrintCode(next));
      HereSplits(t, p + 1, a, "}");
      HereOne(t, p, '{');
      HereOne(t, p + 1 + |a|, '}');
      NestOpens(t, p, nesting, braces);
      CodeReads(t, p + 1, inner, nesting, braces + 1);
      NestCloses(t, p + 1 + |a|, nesting, braces + 1);
      CodeReads(t, p + 1 + |a| + 1, next, nesting, braces);
      MarkedTwice(QuoteIn(inner), QuoteIn(next), rest);
    case Inner(words, next) =>
      var a := PrintWords(words);
      HereThree(t, p, "\"", a + "\"", PrintCode(next));
      HereSplits(t, p + 1, a, "\"");
      HereOne(t, p, '"');
      HereOne(t, p + 1 + |a|, '"');
      WordsRead(t, p + 1, words, nesting);
      WordsClose(t, p + 1 + |a|, nesting);
      InnerOpens(t, p, nesting, braces);
      CodeReads(t, p + 1 + |a| + 1, next, nesting, braces);
      MarkedTwice(true, QuoteIn(next), rest);
    case _ =>
      RemarkReads(t, p, code, nesting, braces);
  }

  /** The same where the code begins with a comment. */
  lemma {:induction false} RemarkReads(t: string, p: nat, code: Code, nesting: nat, braces: nat)
    requires braces > 0 && GoodCode(code, nesting) && (code.ToLineEnd? || code.Comment?)
    requires Here(t, p, PrintCode(code)) && At(t, p + |PrintCode(code)|) == '}'
    ensures IslandEnd(t, p, nesting, braces) ==
            Marked(QuoteIn(code), IslandEnd(t, p + |PrintCode(code)|, nesting, braces))
    decreases code, 0
  {
    hide Here, StringEnd, IslandEnd, First, SearchEnd, LineEnd, LineMark;
    var rest := IslandEnd(t, p + |PrintCode(code)|, nesting, braces);
    match code
    case ToLineEnd(slashes, body, next) =>
      var mark := LineMark(slashes);
      HereThree(t, p, mark, body, PrintCode(next));
      HereSplits(t, p, mark, body);
      HereFirst(t, p + |mark| + |body|, PrintCode(next));
      LineCodeReads(t, p, slashes, body, nesting, braces);
      CodeReads(t, p + |mark| + |body|, next, nesting, braces);
      MarkedTwice('"' in body, QuoteIn(next), rest);
    case Comment(body, next) =>
      HereThree(t, p, "/*", body + "*/", PrintCode(next));
      HereSplits(t, p, "/*", body + "*/");
      SearchLocal(t, p + 2, body, "*/");
      CommentReads(t, p, body, nesting, braces);
      CodeReads(t, p + |body| + 4, next, nesting, braces);
      MarkedTwice('"' in body, QuoteIn(next), rest);
  }

  // ---------------------------------------------------------------- read strings are printed ones

  /** `words` is the string read from `p` up to its closing quote. */
  ghost predicate IsWords(t: string, p: nat, words: Words, nesting: nat) {
    Here(t, p, PrintWords(words) + "\"") && GoodWords(words, nesting)
  }

  /** `code` is the code read from `p` up to its closing brace. */
  ghost predicate IsCode(t: string, p: nat, code: Code, nesting: nat) {
    Here(t, p, PrintCode(code) + "}") && GoodCode(code, nesting)
  }

  lemma FollowedBy(t: string, p: nat, printed: string, closing: char)
    requires Here(t, p, printed + [closing])
    ensures At(t, p) == First(printed, closing)
    ensures Here(t, p, printed) && At(t, p + |printed|) == closing
  {
    HereSplits(t, p, printed, [closing]);
    HereOne(t, p + |printed|, closing);
    HereFirst(t, p, printed);
  }

  lemma OneBefore(t: string, p: nat, c: char, rest: string, closing: string)
    requires p < |t| && t[p] == c && Here(t, p + 1, rest + closing)
    ensures Here(t, p, ([c] + rest) + closing)
  {
    HereOne(t, p, c);
    HereSplits(t, p, [c], rest + closing);
    assert ([c] + rest) + closing == [c] + (rest + closing);
  }

  lemma SomeBefore(t: string, p: nat, front: string, rest: string, closing: string)
    requires Here(t, p, front) && Here(t, p + |front|, rest + closing)
    ensures Here(t, p, (front + rest) + closing)
  {
    HereSplits(t, p, front, rest + closing);
    assert (front + rest) + closing == front + (rest + closing);
  }

  lemma Enclosed(t: string, p: nat, open: string, inner: string, close: string, rest: string, closing: string)
    requires Here(t, p, open) && Here(t, p + |open|, inner + close)
    requires Here(t, p + |open| + |inner + close|, rest + closing)
    ensures Here(t, p, (open + ((inner + close) + rest)) + closing)
  {
    HereThree(t, p, open, inner + close, rest + closing);
    assert (open + ((inner + close) + rest)) + closing == open + ((inner + close) + (rest + closing));
  }

  lemma {:induction false} WordsFound(t: string, p: nat, nesting: nat) returns (words: Words)
    requires StringEnd(t, p, nesting).Some?
    ensures IsWords(t, p, words, nesting)
    decreases |t| - p
  {
    hide Here, First;
    if t[p] == '"' {
      words := NoWords;
      HereOne(t, p, '"');
      assert "" + "\"" == "\"";
    } else if t[p] == '\\' {
      var more := WordsFound(t, p + 2, nesting);
      words := Slashed(t[p + 1], more);
      HereTwo(t, p, '\\', t[p + 1]);
      SomeBefore(t, p, ['\\', t[p + 1]], PrintWords(more), "\"");
    } else if t[p] == '$' && At(t, p + 1) == '{' {
      words := HoleFound(t, p, nesting);
    } else {
      var more := WordsFound(t, p + 1, nesting);
      words := Char(t[p], more);
      FollowedBy(t, p + 1, PrintWords(more), '"');
      OneBefore(t, p, t[p], PrintWords(more), "\"");
    }
  }

  lemma {:induction false} HoleFound(t: string, p: nat, nesting: nat) returns (words: Words)
    requires p < |t| && t[p] == '$' && At(t, p + 1) == '{' && StringEnd(t, p, nesting).Some?
    ensures IsWords(t, p, words, nesting)
    decreases |t| - p, 0
  {
    hide Here, First, IslandEnd;
    var code := CodeFound(t, p + 2, nesting + 1, 1);
    CodeIs(t, p + 2, code, nesting + 1, 1);
    var more := WordsFound(t, p + 2 + |PrintCode(code)| + 1, nesting);
    words := Hole(code, more);
    HereTwo(t, p, '$', '{');
    Enclosed(t, p, "${", PrintCode(code), "}", PrintWords(more), "\"");
  }

  /** Found code ends at its brace: the island's own, or an inner one that leaves it open. */
  lemma CodeIs(t: string, p: nat, code: Code, nesting: nat, braces: nat)
    requires braces > 0 && IsCode(t, p, code, nesting)
    ensures p + |PrintCode(code)| < |t|
    ensures IslandEnd(t, p, nesting, braces) ==
            Marked(QuoteIn(code),
                   if braces == 1 then Some(Reach(p + |PrintCode(code)| + 1, false))
                   else IslandEnd(t, p + |PrintCode(code)| + 1, nesting, braces - 1))
  {
    var end := p + |PrintCode(code)|;
    FollowedBy(t, p, PrintCode(code), '}');
    HereSplits(t, p, PrintCode(code), "}");
    HereOne(t, end, '}');
    hide Here, IslandEnd, GoodCode, QuoteIn;
    CodeReads(t, p, code, nesting, braces);
    if braces == 1 {
      CodeCloses(t, end, nesting);
    } else {
      NestCloses(t, end, nesting, braces);
    }
  }

  lemma WordsAre(t: string, p: nat, words: Words, nesting: nat)
    requires IsWords(t, p, words, nesting)
    ensures p + |PrintWords(words)| < |t|
    ensures StringEnd(t, p, nesting) == Some(Reach(p + |PrintWords(words)| + 1, QuoteInHole(words)))
  {
    var end := p + |PrintWords(words)|;
    FollowedBy(t, p, PrintWords(words), '"');
    HereSplits(t, p, PrintWords(words), "\"");
    HereOne(t, end, '"');
    hide Here, StringEnd, GoodWords, QuoteInHole;
    WordsRead(t, p, words, nesting);
    WordsClose(t, end, nesting);
  }

  lemma {:induction false} CodeFound(t: string, p: nat, nesting: nat, braces: nat) returns (code: Code)
    requires braces > 0 && IslandEnd(t, p, nesting, braces).Some?
    ensures IsCode(t, p, code, nesting)
    decreases |t| - p, 1
  {
    hide Here, First, StringEnd, SearchEnd, LineEnd;
    if t[p] == '"' {
      code := InnerFound(t, p, nesting, braces);
    } else if t[p] == '%' || (t[p] == '/' && At(t, p + 1) == '/') {
      code := LineCodeFound(t, p, nesting, braces);
    } else if t[p] == '/' && At(t, p + 1) == '*' {
      code := CommentFound(t, p, nesting, braces);
    } else if t[p] == '{' {
      code := NestFound(t, p, nesting, braces);
    } else if t[p] == '}' {
      code := NoCode;
      HereOne(t, p, '}');
      assert "" + "}" == "}";
    } else {
      var next := CodeFound(t, p + 1, nesting, braces);
      code := Code.Symbol(t[p], next);
      FollowedBy(t, p + 1, PrintCode(next), '}');
      OneBefore(t, p, t[p], PrintCode(next), "}");
    }
  }

  lemma {:induction false} NestFound(t: string, p: nat, nesting: nat, braces: nat) returns (code: Code)
    requires braces > 0 && p < |t| && t[p] == '{' && IslandEnd(t, p, nesting, braces).Some?
    ensures IsCode(t, p, code, nesting)
    decreases |t| - p, 0
  {
    hide Here, First, IslandEnd;
    NestOpens(t, p, nesting, braces);
    var inner := CodeFound(t, p + 1, nesting, braces + 1);
    CodeIs(t, p + 1, inner, nesting, braces + 1);
    var next := CodeFound(t, p + 1 + |PrintCode(inner)| + 1, nesting, braces);
    code := Nest(inner, next);
    HereOne(t, p, '{');
    Enclosed(t, p, "{", PrintCode(inner), "}", PrintCode(next), "}");
  }

  lemma {:induction false} InnerFound(t: string, p: nat, nesting: nat, braces: nat) returns (code: Code)
    requires braces > 0 && p < |t| && t[p] == '"' && IslandEnd(t, p, nesting, braces).Some?
    ensures IsCode(t, p, code, nesting)
    decreases |t| - p, 0
  {
    hide Here, First, IslandEnd, StringEnd;
    InnerOpens(t, p, nesting, braces);
    var words := WordsFound(t, p + 1, nesting);
    WordsAre(t, p + 1, words, nesting);
    var next := CodeFound(t, p + 1 + |PrintWords(words)| + 1, nesting, braces);
    code := Inner(words, next);
    HereOne(t, p, '"');
    Enclosed(t, p, "\"", PrintWords(words), "\"", PrintCode(next), "}");
  }

  /** A comment up to the end of its line, as it stands in the text. */
  lemma LineStands(t: string, p: nat) returns (slashes: bool, body: string)
    requires p < |t| && (t[p] == '%' || (t[p] == '/' && At(t, p + 1) == '/'))
    ensures Here(t, p, LineMark(slashes) + body) && '\n' !in body
    ensures LineEnd(t, p + 1) == p + |LineMark(slashes)| + |body|
  {
    slashes := t[p] == '/';
    var end, from := LineEnd(t, p + 1), p + |LineMark(slashes)|;
    body := t[from..end];
    if slashes {
      HereTwo(t, p, '/', '/');
    } else {
      HereOne(t, p, '%');
    }
    Slice(t, from, end);
    HereSplits(t, p, LineMark(slashes), body);
    assert forall i | 0 <= i < |body| :: body[i] == t[from + i];
  }

  lemma LineRest(t: string, p: nat, nesting: nat, braces: nat)
    requires braces > 0 && p < |t| && (t[p] == '%' || (t[p] == '/' && At(t, p + 1) == '/'))
    requires IslandEnd(t, p, nesting, braces).Some?
    ensures IslandEnd(t, LineEnd(t, p + 1), nesting, braces).Some? && LineEnd(t, p + 1) < |t|
  {
    hide StringEnd, SearchEnd;
  }

  lemma LineAssembled(t: string, p: nat, slashes: bool, body: string, next: Code, nesting: nat)
    requires Here(t, p, LineMark(slashes) + body) && '\n' !in body
    requires IsCode(t, p + |LineMark(slashes) + body|, next, nesting)
    requires At(t, p + |LineMark(slashes) + body|) == '\n'
    ensures IsCode(t, p, ToLineEnd(slashes, body, next), nesting)
  {
    hide Here, First, LineMark;
    var front := LineMark(slashes) + body;
    FollowedBy(t, p + |front|, PrintCode(next), '}');
    SomeBefore(t, p, front, PrintCode(next), "}");
    assert LineMark(slashes) + (body + PrintCode(next)) == front + PrintCode(next);
  }

  lemma {:induction false} LineCodeFound(t: string, p: nat, nesting: nat, braces: nat) returns (code: Code)
    requires braces > 0 && p < |t| && (t[p] == '%' || (t[p] == '/' && At(t, p + 1) == '/'))
    requires IslandEnd(t, p, nesting, braces).Some?
    ensures IsCode(t, p, code, nesting)
    decreases |t| - p, 0
  {
    hide Here, First, IslandEnd, LineEnd, LineMark, IsCode, SearchEnd;
    LineRest(t, p, nesting, braces);
    var slashes, body := LineStands(t, p);
    var next := CodeFound(t, LineEnd(t, p + 1), nesting, braces);
    code := ToLineEnd(slashes, body, next);
    LineAssembled(t, p, slashes, body, next, nesting);
  }

  lemma CommentRest(t: string, p: nat, nesting: nat, braces: nat)
    requires braces > 0 && p < |t| && t[p] == '/' && At(t, p + 1) == '*' && IslandEnd(t, p, nesting, braces).Some?
    ensures SearchEnd(t, "*/", p + 2).Some?
    ensures IslandEnd(t, SearchEnd(t, "*/", p + 2).value, nesting, braces).Some?
  {
    hide StringEnd, LineEnd, SearchEnd;
  }

  lemma {:induction false} CommentFound(t: string, p: nat, nesting: nat, braces: nat) returns (code: Code)
    requires braces > 0 && p < |t| && t[p] == '/' && At(t, p + 1) == '*' && IslandEnd(t, p, nesting, braces).Some?
    ensures IsCode(t, p, code, nesting)
    decreases |t| - p, 0
  {
    hide Here, First, IslandEnd, SearchEnd;
    CommentRest(t, p, nesting, braces);
    HereTwo(t, p, '/', '*');
    var body := ContentsFound(t, p + 2, "*/");
    SearchLocal(t, p + 2, body, "*/");
    var next := CodeFound(t, p + 2 + |body| + 2, nesting, braces);
    code := Code.Comment(body, next);
    Enclosed(t, p, "/*", body, "*/", PrintCode(next), "}");
  }

  // ---------------------------------------------------------------- the theorem

  /** A string in quotes, before anything at all, with at most the allowed nesting. */
  ghost predicate IsString(t: string, p: nat, end: nat, complex: bool, words: Words) {
    && GoodWords(words, 0)
    && Here(t, p, "\"" + (PrintWords(words) + "\""))
    && end == p + |PrintWords(words)| + 2
    && complex == QuoteInHole(words)
  }

  /**
   The scanner accepts exactly the printed well-formed strings, stops right behind them, and
   raises its flag exactly when an island of the string holds a quote.
   */
  lemma StringAcceptsExactly(t: string, p: nat, end: nat, complex: bool)
    requires p < |t|
    ensures t[p] == '"' && StringEnd(t, p + 1, 0) == Some(Reach(end, complex)) <==>
            exists words :: IsString(t, p, end, complex, words)
  {
    hide StringEnd, Here, GoodWords, QuoteInHole, PrintWords;
    HereOne(t, p, '"');
    if t[p] == '"' && StringEnd(t, p + 1, 0) == Some(Reach(end, complex)) {
      var words := WordsFound(t, p + 1, 0);
      WordsAre(t, p + 1, words, 0);
      HereSplits(t, p, "\"", PrintWords(words) + "\"");
      assert IsString(t, p, end, complex, words);
    }
    if words :| IsString(t, p, end, complex, words) {
      HereSplits(t, p, "\"", PrintWords(words) + "\"");
      WordsAre(t, p + 1, words, 0);
    }
  }
}
