/**
 SQL payloads as trees, how they print, and which of them read back: the scanner accepts
 exactly the printed well-formed payloads, followed by anything.
 */
module SqlGrammar {
  import opened Wrappers
  import opened SqlScanner

  // ---------------------------------------------------------------- trees

  /** The inside of a quoted string of an expression island. */
  datatype Chars = NoChars | Raw(c: char, more: Chars) | Escape(c: char, more: Chars)

  /** The inside of an expression island. */
  datatype Island = NoIsland
                  | Letter(c: char, next: Island)
                  | Group(inner: Island, next: Island)
                  | Text(mark: char, chars: Chars, next: Island)

  /** The inside of a block comment. */
  datatype Comment = NoComment | Symbol(c: char, next: Comment) | Nested(inner: Comment, next: Comment)

  /** The inside of a raw block. */
  datatype Payload = Empty | Then(node: Node, rest: Payload)

  datatype Node =
    | Plain(c: char)
    | Escaped(c: char)
    | Quote(mark: char, body: string)
    | Braces(inner: Payload)
    | Block(comment: Comment)
    | Line(body: string)
    | Interpolated(island: Island)
    | Region(tag: string, body: string)
    | PartialTag(tag: string)

  // ---------------------------------------------------------------- printing

  function Doubled(body: string, mark: char): string {
    if body == "" then "" else (if body[0] == mark then [mark, mark] else [body[0]]) + Doubled(body[1..], mark)
  }

  function PrintChars(chars: Chars): string {
    match chars
    case NoChars => ""
    case Raw(c, more) => [c] + PrintChars(more)
    case Escape(c, more) => ['\\', c] + PrintChars(more)
  }

  function PrintIsland(island: Island): string {
    match island
    case NoIsland => ""
    case Letter(c, next) => [c] + PrintIsland(next)
    case Group(inner, next) => "{" + (PrintIsland(inner) + ("}" + PrintIsland(next)))
    case Text(mark, chars, next) => [mark] + (PrintChars(chars) + ([mark] + PrintIsland(next)))
  }

  function PrintComment(comment: Comment): string {
    match comment
    case NoComment => ""
    case Symbol(c, next) => [c] + PrintComment(next)
    case Nested(inner, next) => "/*" + (PrintComment(inner) + ("*/" + PrintComment(next)))
  }

  function Delimiter(tag: string): string {
    "$" + tag + "$"
  }

  function PrintNode(node: Node): (s: string)
    ensures s != ""
  {
    match node
    case Plain(c) => [c]
    case Escaped(c) => ['\\', c]
    case Quote(mark, body) => [mark] + (Doubled(body, mark) + [mark])
    case Braces(inner) => "{" + (Print(inner) + "}")
    case Block(comment) => "/*" + (PrintComment(comment) + "*/")
    case Line(body) => "--" + body
    case Interpolated(island) => "${" + (PrintIsland(island) + "}")
    case Region(tag, body) => Delimiter(tag) + (body + Delimiter(tag))
    case PartialTag(tag) => "$" + tag
  }

  function Print(payload: Payload): string {
    match payload
    case Empty => ""
    case Then(node, rest) => PrintNode(node) + Print(rest)
  }

  // ---------------------------------------------------------------- well-formed trees

  predicate IsQuote(c: char) {
    c == '\'' || c == '"'
  }

  predicate GoodChars(chars: Chars, mark: char) {
    match chars
    case NoChars => true
    case Raw(c, more) => c != mark && (mark == '"' ==> c != '\\') && GoodChars(more, mark)
    case Escape(_, more) => mark == '"' && GoodChars(more, mark)
  }

  predicate GoodIsland(island: Island) {
    match island
    case NoIsland => true
    case Letter(c, next) => !IsQuote(c) && c != '{' && c != '}' && GoodIsland(next)
    case Group(inner, next) => GoodIsland(inner) && GoodIsland(next)
    case Text(mark, chars, next) => IsQuote(mark) && GoodChars(chars, mark) && GoodIsland(next)
  }

  /** The first printed character, or the one that follows when nothing is printed. */
  function First(printed: string, next: char): char {
    if printed == "" then next else printed[0]
  }

  /** No symbol forms a comment mark with the character after it. */
  predicate GoodComment(comment: Comment) {
    match comment
    case NoComment => true
    case Symbol(c, more) =>
      var following := First(PrintComment(more), '*');
      !(c == '/' && following == '*') && !(c == '*' && following == '/') && GoodComment(more)
    case Nested(inner, more) => GoodComment(inner) && GoodComment(more)
  }

  /** Tags are written in the letters of ASCII, the underscore and, behind the first character, digits. */
  predicate OpensTag(c: char) {
    ('A' <= c && c <= 'Z') || c == '_' || ('a' <= c && c <= 'z')
  }

  predicate InTag(c: char) {
    OpensTag(c) || ('0' <= c && c <= '9')
  }

  predicate GoodTag(tag: string) {
    (tag == "" || OpensTag(tag[0])) && forall i | 0 <= i < |tag| :: InTag(tag[i])
  }

  /** Behind these characters a dollar sign belongs to a name and opens nothing. */
  predicate InName(ranges: Ranges, c: char) {
    if c < 128 as char then InTag(c) || c == '$'
    else exists i :: 0 <= i < |ranges| && ranges[i].0 <= c as int && c as int <= ranges[i].1
  }

  /** Whether the character before what follows `node` counts as part of an identifier. */
  function After(ranges: Ranges, node: Node): bool {
    match node
    case Plain(c) => InName(ranges, c)
    case Escaped(c) => InName(ranges, c)
    case Region(_, _) => true
    case PartialTag(_) => true
    case _ => false
  }

  /** A node in its place: what stands before it, and the character that follows it. */
  predicate GoodNode(node: Node, previousIdentifier: bool, next: char) {
    match node
    case Plain(c) =>
      && !IsQuote(c) && c != '{' && c != '}' && c != '\\'
      && !(c == '/' && next == '*') && !(c == '-' && next == '-') && !(c == '$' && next == '{')
      && !(c == '$' && !previousIdentifier && (next == '$' || OpensTag(next)))
    case Escaped(_) => true
    case Quote(mark, _) => IsQuote(mark) && next != mark
    case Braces(_) => true
    case Block(comment) => GoodComment(comment)
    case Line(body) => '\n' !in body && next == '\n'
    case Interpolated(island) => GoodIsland(island)
    case Region(tag, body) =>
      && !previousIdentifier && GoodTag(tag)
      && SearchEnd(body + Delimiter(tag), Delimiter(tag), 0) == Some(|body| + |Delimiter(tag)|)
    case PartialTag(tag) =>
      !previousIdentifier && tag != "" && GoodTag(tag) && next != '$' && !InTag(next)
  }

  predicate Good(ranges: Ranges, payload: Payload, previousIdentifier: bool, next: char) {
    match payload
    case Empty => true
    case Then(node, rest) =>
      && GoodNode(node, previousIdentifier, First(Print(rest), next))
      && (node.Braces? ==> Good(ranges, node.inner, false, '}'))
      && Good(ranges, rest, After(ranges, node), next)
  }

  /** The flag after a whole payload. */
  function Last(ranges: Ranges, payload: Payload, previousIdentifier: bool): bool {
    match payload
    case Empty => previousIdentifier
    case Then(node, rest) => Last(ranges, rest, After(ranges, node))
  }

  // ---------------------------------------------------------------- text at a position

  /** `s` stands in `t` at `p`. */
  predicate Here(t: string, p: nat, s: string) {
    p + |s| <= |t| && t[p..p + |s|] == s
  }

  lemma HereSplits(t: string, p: nat, a: string, b: string)
    ensures Here(t, p, a + b) <==> Here(t, p, a) && Here(t, p + |a|, b)
  {
    if Here(t, p, a + b) {
      assert t[p..p + |a|] == t[p..p + |a + b|][..|a|];
      assert t[p + |a|..p + |a| + |b|] == t[p..p + |a + b|][|a|..];
    }
    if Here(t, p, a) && Here(t, p + |a|, b) {
      assert t[p..p + |a + b|] == t[p..p + |a|] + t[p + |a|..p + |a| + |b|];
    }
  }

  lemma HereThree(t: string, p: nat, a: string, b: string, c: string)
    ensures Here(t, p, a + (b + c)) <==> Here(t, p, a) && Here(t, p + |a|, b) && Here(t, p + |a| + |b|, c)
  {
    HereSplits(t, p, a, b + c);
    HereSplits(t, p + |a|, b, c);
  }

  lemma HereFirst(t: string, p: nat, s: string)
    requires Here(t, p, s)
    ensures At(t, p) == First(s, At(t, p + |s|))
    ensures s != "" ==> p < |t| && t[p] == s[0]
  {
    if s != "" {
      assert t[p] == t[p..p + |s|][0];
    }
  }

  lemma HereOne(t: string, p: nat, c: char)
    ensures Here(t, p, [c]) <==> p < |t| && t[p] == c
  {
  }

  lemma HereTwo(t: string, p: nat, c: char, d: char)
    ensures Here(t, p, [c, d]) <==> p + 1 < |t| && t[p] == c && t[p + 1] == d
  {
    if Here(t, p, [c, d]) {
      assert t[p] == t[p..p + 2][0] && t[p + 1] == t[p..p + 2][1];
    }
    if p + 1 < |t| && t[p] == c && t[p + 1] == d {
      assert t[p..p + 2] == [t[p], t[p + 1]];
    }
  }

  // ---------------------------------------------------------------- quoted text

  lemma {:induction false} DoubledReads(t: string, p: nat, body: string, mark: char)
    requires Here(t, p, Doubled(body, mark) + [mark]) && mark != '\0'
    requires At(t, p + |Doubled(body, mark)| + 1) != mark
    ensures QuotedEnd(t, p, mark, true) == Some(p + |Doubled(body, mark)| + 1)
    decreases body
  {
    if body == "" {
      HereOne(t, p, mark);
      assert Doubled(body, mark) + [mark] == [mark];
    } else {
      var rest := Doubled(body[1..], mark);
      if body[0] == mark {
        assert Doubled(body, mark) + [mark] == [mark, mark] + (rest + [mark]);
        HereSplits(t, p, [mark, mark], rest + [mark]);
        HereTwo(t, p, mark, mark);
        DoubledReads(t, p + 2, body[1..], mark);
      } else {
        assert Doubled(body, mark) + [mark] == [body[0]] + (rest + [mark]);
        HereSplits(t, p, [body[0]], rest + [mark]);
        HereOne(t, p, body[0]);
        DoubledReads(t, p + 1, body[1..], mark);
      }
    }
  }

  lemma {:induction false} DoubledFound(t: string, p: nat, mark: char) returns (body: string)
    requires QuotedEnd(t, p, mark, true).Some? && mark != '\0'
    ensures Here(t, p, Doubled(body, mark) + [mark])
    ensures QuotedEnd(t, p, mark, true) == Some(p + |Doubled(body, mark)| + 1)
    ensures At(t, p + |Doubled(body, mark)| + 1) != mark
    decreases |t| - p
  {
    if t[p] != mark {
      var tail := DoubledFound(t, p + 1, mark);
      body := [t[p]] + tail;
      assert body[1..] == tail;
      assert Doubled(body, mark) + [mark] == [t[p]] + (Doubled(tail, mark) + [mark]);
      HereSplits(t, p, [t[p]], Doubled(tail, mark) + [mark]);
      HereOne(t, p, t[p]);
    } else if p + 1 < |t| && t[p + 1] == mark {
      var tail := DoubledFound(t, p + 2, mark);
      body := [mark] + tail;
      assert body[1..] == tail;
      assert Doubled(body, mark) + [mark] == [mark, mark] + (Doubled(tail, mark) + [mark]);
      HereSplits(t, p, [mark, mark], Doubled(tail, mark) + [mark]);
      HereTwo(t, p, mark, mark);
    } else {
      body := "";
      assert Doubled(body, mark) + [mark] == [mark];
      HereOne(t, p, mark);
    }
  }

  lemma {:induction false} CharsRead(t: string, p: nat, chars: Chars, mark: char)
    requires Here(t, p, PrintChars(chars) + [mark]) && GoodChars(chars, mark)
    ensures QuotedEnd(t, p, mark, false) == Some(p + |PrintChars(chars)| + 1)
    decreases chars
  {
    match chars
    case NoChars =>
      HereOne(t, p, mark);
      assert PrintChars(chars) + [mark] == [mark];
    case Raw(c, more) =>
      assert PrintChars(chars) + [mark] == [c] + (PrintChars(more) + [mark]);
      HereSplits(t, p, [c], PrintChars(more) + [mark]);
      HereOne(t, p, c);
      CharsRead(t, p + 1, more, mark);
    case Escape(c, more) =>
      assert PrintChars(chars) + [mark] == ['\\', c] + (PrintChars(more) + [mark]);
      HereSplits(t, p, ['\\', c], PrintChars(more) + [mark]);
      HereTwo(t, p, '\\', c);
      CharsRead(t, p + 2, more, mark);
  }

  lemma {:induction false} CharsFound(t: string, p: nat, mark: char) returns (chars: Chars)
    requires QuotedEnd(t, p, mark, false).Some? && mark != '\\'
    ensures Here(t, p, PrintChars(chars) + [mark]) && GoodChars(chars, mark)
    ensures QuotedEnd(t, p, mark, false) == Some(p + |PrintChars(chars)| + 1)
    decreases |t| - p
  {
    if mark == '"' && t[p] == '\\' {
      var more := CharsFound(t, p + 2, mark);
      chars := Escape(t[p + 1], more);
      assert PrintChars(chars) + [mark] == ['\\', t[p + 1]] + (PrintChars(more) + [mark]);
      HereSplits(t, p, ['\\', t[p + 1]], PrintChars(more) + [mark]);
      HereTwo(t, p, '\\', t[p + 1]);
    } else if t[p] != mark {
      var more := CharsFound(t, p + 1, mark);
      chars := Raw(t[p], more);
      assert PrintChars(chars) + [mark] == [t[p]] + (PrintChars(more) + [mark]);
      HereSplits(t, p, [t[p]], PrintChars(more) + [mark]);
      HereOne(t, p, t[p]);
    } else {
      chars := NoChars;
      assert PrintChars(chars) + [mark] == [mark];
      HereOne(t, p, mark);
    }
  }

  // ---------------------------------------------------------------- islands

  /** An island's text is passed over at any depth; the depth is then as before. */
  lemma {:induction false} IslandReads(t: string, p: nat, island: Island, depth: nat)
    requires depth > 0 && Here(t, p, PrintIsland(island)) && GoodIsland(island)
    ensures InterpolationEnd(t, p, depth) == InterpolationEnd(t, p + |PrintIsland(island)|, depth)
    decreases island
  {
    hide Here, QuotedEnd;
    match island
    case NoIsland =>
    case Letter(c, next) =>
      HereSplits(t, p, [c], PrintIsland(next));
      HereOne(t, p, c);
      IslandReads(t, p + 1, next, depth);
    case Group(inner, next) =>
      var a, b := PrintIsland(inner), PrintIsland(next);
      HereThree(t, p, "{", a, "}" + b);
      HereSplits(t, p + 1 + |a|, "}", b);
      HereOne(t, p, '{');
      HereOne(t, p + 1 + |a|, '}');
      IslandReads(t, p + 1, inner, depth + 1);
      IslandReads(t, p + 1 + |a| + 1, next, depth);
    case Text(mark, chars, next) =>
      var a, b := PrintChars(chars), PrintIsland(next);
      HereThree(t, p, [mark], a, [mark] + b);
      HereSplits(t, p + 1 + |a|, [mark], b);
      HereSplits(t, p + 1, a, [mark]);
      HereOne(t, p, mark);
      CharsRead(t, p + 1, chars, mark);
      IslandReads(t, p + 1 + |a| + 1, next, depth);
  }

  lemma PrintedGroup(inner: Island, next: Island)
    ensures PrintIsland(Group(inner, next)) + "}" == "{" + ((PrintIsland(inner) + "}") + (PrintIsland(next) + "}"))
  {
  }

  lemma PrintedText(mark: char, chars: Chars, next: Island)
    ensures PrintIsland(Text(mark, chars, next)) + "}" ==
            [mark] + ((PrintChars(chars) + [mark]) + (PrintIsland(next) + "}"))
  {
  }

  lemma PrintedLetter(c: char, next: Island)
    ensures PrintIsland(Letter(c, next)) + "}" == [c] + (PrintIsland(next) + "}")
  {
  }

  lemma {:induction false} IslandFound(t: string, p: nat, depth: nat) returns (island: Island)
    requires depth > 0 && InterpolationEnd(t, p, depth).Some?
    ensures Here(t, p, PrintIsland(island) + "}") && GoodIsland(island)
    ensures depth == 1 ==> InterpolationEnd(t, p, depth) == Some(p + |PrintIsland(island)| + 1)
    ensures depth > 1 ==>
              InterpolationEnd(t, p, depth) == InterpolationEnd(t, p + |PrintIsland(island)| + 1, depth - 1)
    decreases |t| - p
  {
    hide Here, QuotedEnd;
    if IsQuote(t[p]) {
      var mark := t[p];
      var chars := CharsFound(t, p + 1, mark);
      var next := IslandFound(t, p + 1 + |PrintChars(chars)| + 1, depth);
      island := Text(mark, chars, next);
      PrintedText(mark, chars, next);
      HereThree(t, p, [mark], PrintChars(chars) + [mark], PrintIsland(next) + "}");
      HereOne(t, p, mark);
    } else if t[p] == '{' {
      var inner := IslandFound(t, p + 1, depth + 1);
      var next := IslandFound(t, p + 1 + |PrintIsland(inner)| + 1, depth);
      island := Group(inner, next);
      PrintedGroup(inner, next);
      HereThree(t, p, "{", PrintIsland(inner) + "}", PrintIsland(next) + "}");
      HereOne(t, p, '{');
    } else if t[p] == '}' {
      island := NoIsland;
      assert PrintIsland(island) + "}" == "}";
      HereOne(t, p, '}');
    } else {
      var next := IslandFound(t, p + 1, depth);
      island := Letter(t[p], next);
      PrintedLetter(t[p], next);
      HereSplits(t, p, [t[p]], PrintIsland(next) + "}");
      HereOne(t, p, t[p]);
    }
  }

  // ---------------------------------------------------------------- comments

  lemma {:induction false} CommentReads(t: string, p: nat, comment: Comment, depth: nat)
    requires depth > 0 && Here(t, p, PrintComment(comment) + "*/") && GoodComment(comment)
    ensures CommentEnd(t, p, depth) == CommentEnd(t, p + |PrintComment(comment)|, depth)
    decreases comment
  {
    hide Here;
    match comment
    case NoComment =>
    case Symbol(c, next) =>
      PrintedSymbol(c, next);
      HereSplits(t, p, [c], PrintComment(next) + "*/");
      HereOne(t, p, c);
      HereFirst(t, p + 1, PrintComment(next) + "*/");
      CommentReads(t, p + 1, next, depth);
    case Nested(inner, next) =>
      var a, b := PrintComment(inner), PrintComment(next);
      PrintedNested(inner, next);
      HereThree(t, p, "/*", a + "*/", b + "*/");
      HereSplits(t, p + 2, a, "*/");
      HereTwo(t, p, '/', '*');
      HereTwo(t, p + 2 + |a|, '*', '/');
      CommentReads(t, p + 2, inner, depth + 1);
      CommentReads(t, p + 2 + |a| + 2, next, depth);
  }

  lemma PrintedNested(inner: Comment, next: Comment)
    ensures PrintComment(Nested(inner, next)) + "*/" ==
        "/*" + ((PrintComment(inner) + "*/") + (PrintComment(next) + "*/"))
  {
  }

  lemma PrintedSymbol(c: char, next: Comment)
    ensures PrintComment(Symbol(c, next)) + "*/" == [c] + (PrintComment(next) + "*/")
    ensures PrintComment(next) + "*/" != ""
    ensures First(PrintComment(next), '*') == First(PrintComment(next) + "*/", '*')
  {
  }

  lemma {:induction false} CommentFound(t: string, p: nat, depth: nat) returns (comment: Comment)
    requires depth > 0 && CommentEnd(t, p, depth).Some?
    ensures Here(t, p, PrintComment(comment) + "*/") && GoodComment(comment)
    ensures depth == 1 ==> CommentEnd(t, p, depth) == Some(p + |PrintComment(comment)| + 2)
    ensures depth > 1 ==>
              CommentEnd(t, p, depth) == CommentEnd(t, p + |PrintComment(comment)| + 2, depth - 1)
    decreases |t| - p
  {
    hide Here;
    if t[p] == '/' && At(t, p + 1) == '*' {
      var inner := CommentFound(t, p + 2, depth + 1);
      var next := CommentFound(t, p + 2 + |PrintComment(inner)| + 2, depth);
      comment := Nested(inner, next);
      PrintedNested(inner, next);
      HereThree(t, p, "/*", PrintComment(inner) + "*/", PrintComment(next) + "*/");
      HereTwo(t, p, '/', '*');
    } else if t[p] == '*' && At(t, p + 1) == '/' {
      comment := NoComment;
      assert PrintComment(comment) + "*/" == "*/";
      HereTwo(t, p, '*', '/');
    } else {
      var next := CommentFound(t, p + 1, depth);
      comment := Symbol(t[p], next);
      PrintedSymbol(t[p], next);
      HereSplits(t, p, [t[p]], PrintComment(next) + "*/");
      HereOne(t, p, t[p]);
      HereFirst(t, p + 1, PrintComment(next) + "*/");
    }
  }

  // ---------------------------------------------------------------- lines, tags and regions

  lemma {:induction false} LineReads(t: string, p: nat, end: nat)
    requires p <= end <= |t| && (forall i | p <= i < end :: t[i] != '\n')
    requires end < |t| && t[end] == '\n'
    ensures LineEnd(t, p) == end
    decreases end - p
  {
    if p < end {
      LineReads(t, p + 1, end);
    }
  }

  lemma {:induction false} TagReads(t: string, p: nat, end: nat)
    requires p <= end <= |t| && (forall i | p <= i < end :: TagCharacter(t[i]))
    requires !TagCharacter(At(t, end))
    ensures TagEnd(t, p) == end
    decreases end - p
  {
    if p < end {
      TagReads(t, p + 1, end);
    }
  }

  lemma HereAt(t: string, p: nat, s: string, i: nat)
    requires Here(t, p, s) && i < |s|
    ensures p + i < |t| && t[p + i] == s[i]
  {
    assert t[p..p + |s|][i] == t[p + i];
  }

  lemma SliceOfSlice(t: string, p: nat, q: nat, a: nat, b: nat)
    requires p <= q <= |t| && a <= b <= q - p
    ensures t[p..q][a..b] == t[p + a..p + b]
  {
    var x, y := t[p..q][a..b], t[p + a..p + b];
    forall i | 0 <= i < b - a
      ensures x[i] == y[i]
    {
      assert x[i] == t[p..q][a + i] == t[p + (a + i)];
      assert y[i] == t[(p + a) + i];
    }
  }

  lemma OccursShifted(t: string, p: nat, all: string, word: string, s: nat)
    requires Here(t, p, all) && s + |word| <= |all|
    ensures Occurs(all, word, s) <==> Occurs(t, word, p + s)
  {
    SliceOfSlice(t, p, p + |all|, s, s + |word|);
  }

  lemma OccursAtEnd(body: string, word: string)
    ensures Occurs(body + word, word, |body|)
  {
    assert (body + word)[|body|..|body| + |word|] == word;
  }

  lemma SearchIs(t: string, word: string, p: nat, s: nat)
    requires p <= s && Occurs(t, word, s)
    ensures SearchEnd(t, word, p) == Some(s + |word|) <==> forall s' | p <= s' < s :: !Occurs(t, word, s')
  {
    assert s <= |t|;
    hide Occurs, SearchEnd;
    SearchFinds(t, word, p);
  }

  /** Searching a region for its delimiter does not depend on what stands around it. */
  lemma SearchLocal(t: string, p: nat, body: string, word: string)
    requires Here(t, p, body + word)
    ensures SearchEnd(body + word, word, 0) == Some(|body| + |word|) <==>
            SearchEnd(t, word, p) == Some(p + |body| + |word|)
  {
    var all := body + word;
    OccursAtEnd(body, word);
    hide Here, Occurs, SearchEnd;
    forall s | 0 <= s <= |body|
      ensures Occurs(all, word, s) <==> Occurs(t, word, p + s)
    {
      OccursShifted(t, p, all, word, s);
    }
    SearchIs(all, word, 0, |body|);
    SearchIs(t, word, p, p + |body|);
    if forall s | 0 <= s < |body| :: !Occurs(all, word, s) {
      forall s | p <= s < p + |body|
        ensures !Occurs(t, word, s)
      {
        assert Occurs(all, word, s - p) <==> Occurs(t, word, p + (s - p));
      }
    }
  }

  lemma TagStands(t: string, p: nat, tag: string)
    requires Here(t, p, "$" + tag) && GoodTag(tag) && !TagCharacter(At(t, p + 1 + |tag|))
    ensures p < |t| && t[p] == '$' && TagEnd(t, p + 1) == p + 1 + |tag|
    ensures tag != "" ==> p + 1 < |t| && AsciiLetter(t[p + 1])
  {
    HereAt(t, p, "$" + tag, 0);
    forall i | 0 <= i < |tag|
      ensures p + 1 + i < |t| && t[p + 1 + i] == tag[i]
    {
      HereAt(t, p, "$" + tag, i + 1);
    }
    TagReads(t, p + 1, p + 1 + |tag|);
  }

  lemma PrintedRegion(tag: string, body: string)
    ensures PrintNode(Region(tag, body)) == Delimiter(tag) + (body + Delimiter(tag))
    ensures |Delimiter(tag)| == |tag| + 2
  {
  }

  /** A region whose opening delimiter and contents stand here. */
  lemma RegionStands(t: string, p: nat, word: string, body: string)
    requires |word| >= 2 && p + |word| <= |t| && t[p..p + |word|] == word
    requires t[p] == '$' && TagEnd(t, p + 1) == p + |word| - 1 && t[p + |word| - 1] == '$'
    requires Here(t, p + |word|, body + word)
    ensures SearchEnd(body + word, word, 0) == Some(|body| + |word|) <==>
            DollarEnd(t, p + 1) == Some(p + |word| + |body| + |word|)
  {
    hide SearchEnd, TagEnd, DollarEnd, Here;
    var n := p + |word| - 1;
    assert t[p..n + 1] == word;
    DollarSearches(t, p, n, word);
    SearchLocal(t, n + 1, body, word);
  }

  lemma RegionReads(t: string, p: nat, tag: string, body: string)
    requires Here(t, p, PrintNode(Region(tag, body))) && GoodTag(tag)
    requires SearchEnd(body + Delimiter(tag), Delimiter(tag), 0) == Some(|body| + |Delimiter(tag)|)
    ensures p + 1 <= |t| && t[p] == '$'
    ensures At(t, p + 1) == '$' || AsciiLetter(At(t, p + 1))
    ensures DollarEnd(t, p + 1) == Some(p + |PrintNode(Region(tag, body))|)
  {
    PrintedRegion(tag, body);
    hide Here, SearchEnd, TagEnd, DollarEnd, Delimiter, GoodTag, PrintNode;
    DelimiterStands(t, p, tag, body + Delimiter(tag));
    TagStands(t, p, tag);
    RegionStands(t, p, Delimiter(tag), body);
  }

  lemma DelimiterStands(t: string, p: nat, tag: string, more: string)
    requires Here(t, p, Delimiter(tag) + more)
    ensures Here(t, p, "$" + tag) && p + 1 + |tag| < |t| && t[p + 1 + |tag|] == '$'
    ensures t[p..p + 2 + |tag|] == Delimiter(tag)
    ensures Here(t, p + 2 + |tag|, more)
  {
    HereSplits(t, p, Delimiter(tag), more);
    HereSplits(t, p, "$" + tag, "$");
    HereOne(t, p + 1 + |tag|, '$');
  }

  lemma DollarSearches(t: string, p: nat, n: nat, word: string)
    requires p < n < |t| && t[p] == '$' && TagEnd(t, p + 1) == n && t[n] == '$' && t[p..n + 1] == word
    ensures DollarEnd(t, p + 1) == SearchEnd(t, word, n + 1)
  {
  }

  lemma PartialReads(t: string, p: nat, tag: string)
    requires Here(t, p, "$" + tag) && tag != "" && GoodTag(tag)
    requires At(t, p + 1 + |tag|) != '$' && !TagCharacter(At(t, p + 1 + |tag|))
    ensures p + 1 < |t| && t[p] == '$' && AsciiLetter(t[p + 1])
    ensures DollarEnd(t, p + 1) == Some(p + 1 + |tag|)
  {
    TagStands(t, p, tag);
  }

  // ---------------------------------------------------------------- one node

  lemma QuoteReads(t: string, p: nat, mark: char, body: string)
    requires Here(t, p, PrintNode(Quote(mark, body))) && IsQuote(mark)
    requires At(t, p + |PrintNode(Quote(mark, body))|) != mark
    ensures p < |t| && t[p] == mark
    ensures QuotedEnd(t, p + 1, mark, true) == Some(p + |PrintNode(Quote(mark, body))|)
  {
    HereSplits(t, p, [mark], Doubled(body, mark) + [mark]);
    HereOne(t, p, mark);
    DoubledReads(t, p + 1, body, mark);
  }

  lemma BlockReads(t: string, p: nat, comment: Comment)
    requires Here(t, p, PrintNode(Block(comment))) && GoodComment(comment)
    ensures p + 1 < |t| && t[p] == '/' && t[p + 1] == '*'
    ensures CommentEnd(t, p + 2, 1) == Some(p + |PrintNode(Block(comment))|)
  {
    HereSplits(t, p, "/*", PrintComment(comment) + "*/");
    HereTwo(t, p, '/', '*');
    CommentReads(t, p + 2, comment, 1);
    HereSplits(t, p + 2, PrintComment(comment), "*/");
    HereTwo(t, p + 2 + |PrintComment(comment)|, '*', '/');
  }

  lemma LineNodeReads(t: string, p: nat, body: string)
    requires Here(t, p, "--" + body) && '\n' !in body && At(t, p + 2 + |body|) == '\n'
    ensures p + 1 < |t| && t[p] == '-' && t[p + 1] == '-'
    ensures LineEnd(t, p + 1) == p + 2 + |body|
  {
    HereSplits(t, p, "--", body);
    HereTwo(t, p, '-', '-');
    forall i | p + 2 <= i < p + 2 + |body|
      ensures t[i] != '\n'
    {
      HereAt(t, p + 2, body, i - p - 2);
    }
    LineReads(t, p + 1, p + 2 + |body|);
  }

  lemma InterpolatedReads(t: string, p: nat, island: Island)
    requires Here(t, p, PrintNode(Interpolated(island))) && GoodIsland(island)
    ensures p + 1 < |t| && t[p] == '$' && t[p + 1] == '{'
    ensures InterpolationEnd(t, p + 2, 1) == Some(p + |PrintNode(Interpolated(island))|)
  {
    HereSplits(t, p, "${", PrintIsland(island) + "}");
    HereTwo(t, p, '$', '{');
    HereSplits(t, p + 2, PrintIsland(island), "}");
    IslandReads(t, p + 2, island, 1);
    HereOne(t, p + 2 + |PrintIsland(island)|, '}');
  }

  lemma CharacterReads(ranges: Ranges, t: string, p: nat, node: Node, depth: nat, previous: bool)
    requires depth > 0 && (node.Plain? || node.Escaped?) && Here(t, p, PrintNode(node))
    requires GoodNode(node, previous, At(t, p + |PrintNode(node)|))
    ensures BlockEnd(ranges, t, p, depth, previous) ==
            BlockEnd(ranges, t, p + |PrintNode(node)|, depth, After(ranges, node))
  {
    hide Here, QuotedEnd, CommentEnd, InterpolationEnd, LineEnd, DollarEnd;
    match node
    case Plain(c) =>
      HereOne(t, p, c);
    case Escaped(c) =>
      HereTwo(t, p, '\\', c);
  }

  lemma DollarReads(ranges: Ranges, t: string, p: nat, node: Node, depth: nat, previous: bool)
    requires depth > 0 && (node.Region? || node.PartialTag?) && Here(t, p, PrintNode(node))
    requires GoodNode(node, previous, At(t, p + |PrintNode(node)|))
    ensures BlockEnd(ranges, t, p, depth, previous) ==
            BlockEnd(ranges, t, p + |PrintNode(node)|, depth, After(ranges, node))
  {
    hide Here, QuotedEnd, CommentEnd, InterpolationEnd, LineEnd, DollarEnd;
    match node
    case Region(tag, body) =>
      RegionReads(t, p, tag, body);
    case PartialTag(tag) =>
      PartialReads(t, p, tag);
  }

  /** The scan passes over one printed node and remembers what kind of character it ended in. */
  lemma {:induction false} NodeReads(ranges: Ranges, t: string, p: nat, node: Node, depth: nat, previous: bool)
    requires depth > 0 && !node.Braces? && Here(t, p, PrintNode(node))
    requires GoodNode(node, previous, At(t, p + |PrintNode(node)|))
    ensures BlockEnd(ranges, t, p, depth, previous) ==
            BlockEnd(ranges, t, p + |PrintNode(node)|, depth, After(ranges, node))
  {
    hide Here, QuotedEnd, CommentEnd, InterpolationEnd, LineEnd, DollarEnd, Doubled, PrintComment, PrintIsland;
    match node
    case Quote(mark, body) =>
      QuoteReads(t, p, mark, body);
    case Block(comment) =>
      BlockReads(t, p, comment);
    case Line(body) =>
      LineNodeReads(t, p, body);
    case Interpolated(island) =>
      InterpolatedReads(t, p, island);
    case _ =>
      hide BlockEnd, PrintNode, GoodNode;
      if node.Plain? || node.Escaped? {
        CharacterReads(ranges, t, p, node, depth, previous);
      } else {
        DollarReads(ranges, t, p, node, depth, previous);
      }
  }

  // ---------------------------------------------------------------- finding one node

  lemma Slice(t: string, p: nat, q: nat)
    requires p <= q <= |t|
    ensures Here(t, p, t[p..q])
  {
  }

  lemma LineFound(t: string, p: nat) returns (body: string)
    requires p + 1 < |t| && t[p] == '-' && t[p + 1] == '-' && LineEnd(t, p + 1) < |t|
    ensures Here(t, p, "--" + body) && '\n' !in body
    ensures LineEnd(t, p + 1) == p + 2 + |body| && At(t, p + 2 + |body|) == '\n'
  {
    var end := LineEnd(t, p + 1);
    body := t[p + 2..end];
    HereTwo(t, p, '-', '-');
    Slice(t, p + 2, end);
    HereSplits(t, p, "--", body);
    assert forall i | 0 <= i < |body| :: body[i] == t[p + 2 + i];
  }

  lemma TagFound(t: string, p: nat) returns (tag: string)
    requires p + 1 <= |t| && t[p] == '$' && (At(t, p + 1) == '$' || AsciiLetter(At(t, p + 1)))
    ensures TagEnd(t, p + 1) == p + 1 + |tag| && Here(t, p, "$" + tag) && GoodTag(tag)
    ensures AsciiLetter(At(t, p + 1)) ==> tag != ""
  {
    var n := TagEnd(t, p + 1);
    tag := t[p + 1..n];
    assert forall i | 0 <= i < |tag| :: tag[i] == t[p + 1 + i];
    Slice(t, p, n);
    assert t[p..n] == "$" + tag;
  }

  /** The contents up to the first closing delimiter. */
  lemma ContentsFound(t: string, q: nat, word: string) returns (body: string)
    requires q <= |t| && SearchEnd(t, word, q).Some?
    ensures Here(t, q, body + word) && SearchEnd(t, word, q) == Some(q + |body| + |word|)
  {
    SearchFinds(t, word, q);
    var end := SearchEnd(t, word, q).value;
    hide SearchEnd, Occurs, Here;
    body := t[q..end - |word|];
    Slice(t, q, end - |word|);
    OccursHere(t, word, end - |word|);
    HereSplits(t, q, body, word);
  }

  lemma RegionFound(t: string, p: nat, tag: string) returns (body: string)
    requires p + 1 <= |t| && t[p] == '$' && Here(t, p, "$" + tag)
    requires TagEnd(t, p + 1) == p + 1 + |tag| && At(t, p + 1 + |tag|) == '$'
    requires DollarEnd(t, p + 1).Some?
    ensures Here(t, p, PrintNode(Region(tag, body)))
    ensures DollarEnd(t, p + 1) == Some(p + |PrintNode(Region(tag, body))|)
    ensures SearchEnd(body + Delimiter(tag), Delimiter(tag), 0) == Some(|body| + |Delimiter(tag)|)
  {
    hide SearchEnd, TagEnd, DollarEnd, Here, Delimiter, PrintNode;
    DelimiterAssembled(t, p, tag);
    DollarSearches(t, p, p + 1 + |tag|, Delimiter(tag));
    body := ContentsFound(t, p + |tag| + 2, Delimiter(tag));
    PrintedRegion(tag, body);
    HereSplits(t, p, Delimiter(tag), body + Delimiter(tag));
    SearchLocal(t, p + |tag| + 2, body, Delimiter(tag));
  }

  lemma DelimiterAssembled(t: string, p: nat, tag: string)
    requires Here(t, p, "$" + tag) && At(t, p + 1 + |tag|) == '$'
    ensures |Delimiter(tag)| == |tag| + 2 && p + |tag| + 2 <= |t|
    ensures Here(t, p, Delimiter(tag)) && t[p..p + |tag| + 2] == Delimiter(tag)
  {
    HereOne(t, p + 1 + |tag|, '$');
    HereSplits(t, p, "$" + tag, "$");
  }

  lemma OccursHere(t: string, word: string, s: nat)
    ensures Occurs(t, word, s) <==> Here(t, s, word)
  {
  }

  lemma DollarFound(t: string, p: nat) returns (node: Node)
    requires p + 1 <= |t| && t[p] == '$' && (At(t, p + 1) == '$' || AsciiLetter(At(t, p + 1)))
    requires DollarEnd(t, p + 1).Some?
    ensures node.Region? || node.PartialTag?
    ensures Here(t, p, PrintNode(node)) && DollarEnd(t, p + 1) == Some(p + |PrintNode(node)|)
    ensures GoodNode(node, false, At(t, p + |PrintNode(node)|))
  {
    var tag := TagFound(t, p);
    hide Here, SearchEnd, GoodTag;
    if At(t, TagEnd(t, p + 1)) != '$' {
      node := PartialTag(tag);
    } else {
      var body := RegionFound(t, p, tag);
      node := Region(tag, body);
    }
  }

  lemma QuoteFound(ranges: Ranges, t: string, p: nat, depth: nat, previous: bool) returns (node: Node)
    requires depth > 0 && BlockEnd(ranges, t, p, depth, previous).Some?
    requires IsQuote(t[p])
    ensures node.Quote? && Here(t, p, PrintNode(node))
    ensures GoodNode(node, previous, At(t, p + |PrintNode(node)|))
    ensures BlockEnd(ranges, t, p, depth, previous) ==
            BlockEnd(ranges, t, p + |PrintNode(node)|, depth, After(ranges, node))
  {
    hide Here, QuotedEnd, Doubled;
    var c := t[p];
    var body := DoubledFound(t, p + 1, c);
    node := Quote(c, body);
    HereOne(t, p, c);
    HereSplits(t, p, [c], Doubled(body, c) + [c]);
  }

  lemma BlockFound(ranges: Ranges, t: string, p: nat, depth: nat, previous: bool) returns (node: Node)
    requires depth > 0 && BlockEnd(ranges, t, p, depth, previous).Some?
    requires t[p] == '/' && At(t, p + 1) == '*'
    ensures node.Block? && Here(t, p, PrintNode(node))
    ensures GoodNode(node, previous, At(t, p + |PrintNode(node)|))
    ensures BlockEnd(ranges, t, p, depth, previous) ==
            BlockEnd(ranges, t, p + |PrintNode(node)|, depth, After(ranges, node))
  {
    hide Here, CommentEnd, PrintComment;
    var comment := CommentFound(t, p + 2, 1);
    node := Block(comment);
    HereTwo(t, p, '/', '*');
    HereSplits(t, p, "/*", PrintComment(comment) + "*/");
  }

  lemma LineNodeFound(ranges: Ranges, t: string, p: nat, depth: nat, previous: bool) returns (node: Node)
    requires depth > 0 && BlockEnd(ranges, t, p, depth, previous).Some?
    requires t[p] == '-' && At(t, p + 1) == '-'
    ensures node.Line? && Here(t, p, PrintNode(node))
    ensures GoodNode(node, previous, At(t, p + |PrintNode(node)|))
    ensures BlockEnd(ranges, t, p, depth, previous) ==
            BlockEnd(ranges, t, p + |PrintNode(node)|, depth, After(ranges, node))
  {
    hide Here, LineEnd;
    var body := LineFound(t, p);
    node := Line(body);
  }

  lemma InterpolatedFound(ranges: Ranges, t: string, p: nat, depth: nat, previous: bool) returns (node: Node)
    requires depth > 0 && BlockEnd(ranges, t, p, depth, previous).Some?
    requires t[p] == '$' && At(t, p + 1) == '{'
    ensures node.Interpolated? && Here(t, p, PrintNode(node))
    ensures GoodNode(node, previous, At(t, p + |PrintNode(node)|))
    ensures BlockEnd(ranges, t, p, depth, previous) ==
            BlockEnd(ranges, t, p + |PrintNode(node)|, depth, After(ranges, node))
  {
    hide Here, InterpolationEnd, PrintIsland;
    var island := IslandFound(t, p + 2, 1);
    node := Interpolated(island);
    HereTwo(t, p, '$', '{');
    HereSplits(t, p, "${", PrintIsland(island) + "}");
  }

  lemma RegionNodeFound(ranges: Ranges, t: string, p: nat, depth: nat, previous: bool) returns (node: Node)
    requires depth > 0 && BlockEnd(ranges, t, p, depth, previous).Some?
    requires t[p] == '$' && !previous && (At(t, p + 1) == '$' || AsciiLetter(At(t, p + 1)))
    ensures (node.Region? || node.PartialTag?) && Here(t, p, PrintNode(node))
    ensures GoodNode(node, previous, At(t, p + |PrintNode(node)|))
    ensures BlockEnd(ranges, t, p, depth, previous) ==
            BlockEnd(ranges, t, p + |PrintNode(node)|, depth, After(ranges, node))
  {
    hide Here, DollarEnd, SearchEnd;
    node := DollarFound(t, p);
  }

  lemma {:induction false} NodeFound(ranges: Ranges, t: string, p: nat, depth: nat, previous: bool) returns (node: Node)
    requires depth > 0 && BlockEnd(ranges, t, p, depth, previous).Some?
    requires t[p] != '{' && t[p] != '}'
    ensures !node.Braces? && Here(t, p, PrintNode(node))
    ensures GoodNode(node, previous, At(t, p + |PrintNode(node)|))
    ensures BlockEnd(ranges, t, p, depth, previous) ==
            BlockEnd(ranges, t, p + |PrintNode(node)|, depth, After(ranges, node))
  {
    hide BlockEnd, Here, PrintNode, GoodNode, After;
    var c, next := t[p], At(t, p + 1);
    if IsQuote(c) {
      node := QuoteFound(ranges, t, p, depth, previous);
    } else if c == '/' && next == '*' {
      node := BlockFound(ranges, t, p, depth, previous);
    } else if c == '-' && next == '-' {
      node := LineNodeFound(ranges, t, p, depth, previous);
    } else if c == '$' && next == '{' {
      node := InterpolatedFound(ranges, t, p, depth, previous);
    } else if c == '$' && !previous && (next == '$' || AsciiLetter(next)) {
      node := RegionNodeFound(ranges, t, p, depth, previous);
    } else {
      node := CharacterFound(ranges, t, p, depth, previous);
    }
  }

  lemma CharacterFound(ranges: Ranges, t: string, p: nat, depth: nat, previous: bool) returns (node: Node)
    requires depth > 0 && BlockEnd(ranges, t, p, depth, previous).Some?
    requires t[p] != '{' && t[p] != '}' && !IsQuote(t[p])
    requires !(t[p] == '/' && At(t, p + 1) == '*') && !(t[p] == '-' && At(t, p + 1) == '-')
    requires !(t[p] == '$' && At(t, p + 1) == '{')
    requires !(t[p] == '$' && !previous && (At(t, p + 1) == '$' || AsciiLetter(At(t, p + 1))))
    ensures (node.Plain? || node.Escaped?) && Here(t, p, PrintNode(node))
    ensures GoodNode(node, previous, At(t, p + |PrintNode(node)|))
    ensures BlockEnd(ranges, t, p, depth, previous) ==
            BlockEnd(ranges, t, p + |PrintNode(node)|, depth, After(ranges, node))
  {
    if t[p] == '\\' {
      node := Escaped(At(t, p + 1));
      HereTwo(t, p, '\\', At(t, p + 1));
    } else {
      node := Plain(t[p]);
      HereOne(t, p, t[p]);
    }
  }

  // ---------------------------------------------------------------- whole payloads

  lemma BracesRead(ranges: Ranges, t: string, p: nat, depth: nat, previous: bool)
    requires depth > 0 && p < |t|
    ensures t[p] == '{' ==> BlockEnd(ranges, t, p, depth, previous) == BlockEnd(ranges, t, p + 1, depth + 1, false)
    ensures t[p] == '}' && depth == 1 ==> BlockEnd(ranges, t, p, depth, previous) == Some(p + 1)
    ensures t[p] == '}' && depth > 1 ==>
              BlockEnd(ranges, t, p, depth, previous) == BlockEnd(ranges, t, p + 1, depth - 1, false)
  {
  }

  /** Printing a well-formed payload and scanning it leaves the brace depth as it was. */
  lemma {:induction false} PayloadReads(ranges: Ranges, t: string, p: nat, payload: Payload, depth: nat, previous: bool)
    requires depth > 0 && Here(t, p, Print(payload))
    requires Good(ranges, payload, previous, At(t, p + |Print(payload)|))
    ensures BlockEnd(ranges, t, p, depth, previous) ==
            BlockEnd(ranges, t, p + |Print(payload)|, depth, Last(ranges, payload, previous))
    decreases payload
  {
    hide Here, BlockEnd, GoodNode;
    match payload
    case Empty =>
    case Then(node, rest) =>
      HereSplits(t, p, PrintNode(node), Print(rest));
      var q := p + |PrintNode(node)|;
      HereFirst(t, q, Print(rest));
      if node.Braces? {
        var a := Print(node.inner);
        HereThree(t, p, "{", a, "}");
        HereOne(t, p, '{');
        HereOne(t, p + 1 + |a|, '}');
        BracesRead(ranges, t, p, depth, previous);
        PayloadReads(ranges, t, p + 1, node.inner, depth + 1, false);
        BracesRead(ranges, t, p + 1 + |a|, depth + 1, Last(ranges, node.inner, false));
      } else {
        NodeReads(ranges, t, p, node, depth, previous);
      }
      PayloadReads(ranges, t, q, rest, depth, After(ranges, node));
  }

  /** Whatever the scan accepts up to a closing brace is the print of a well-formed payload. */
  lemma {:induction false} PayloadFound(ranges: Ranges, t: string, p: nat, depth: nat, previous: bool)
    returns (payload: Payload)
    requires depth > 0 && BlockEnd(ranges, t, p, depth, previous).Some?
    ensures Here(t, p, Print(payload) + "}") && Good(ranges, payload, previous, '}')
    ensures depth == 1 ==> BlockEnd(ranges, t, p, depth, previous) == Some(p + |Print(payload)| + 1)
    ensures depth > 1 ==>
              BlockEnd(ranges, t, p, depth, previous) ==
              BlockEnd(ranges, t, p + |Print(payload)| + 1, depth - 1, false)
    decreases |t| - p
  {
    hide Here, BlockEnd, GoodNode, Good, Print;
    BracesRead(ranges, t, p, depth, previous);
    if t[p] == '}' {
      payload := Empty;
      EmptyIsGood(ranges, previous);
      HereOne(t, p, '}');
    } else if t[p] == '{' {
      var inner := PayloadFound(ranges, t, p + 1, depth + 1, false);
      var q := p + 1 + |Print(inner)| + 1;
      var rest := PayloadFound(ranges, t, q, depth, false);
      payload := Then(Braces(inner), rest);
      HereThree(t, p, "{", Print(inner) + "}", Print(rest) + "}");
      HereOne(t, p, '{');
      BracesAreGood(ranges, inner, rest, previous);
    } else {
      var node := NodeFound(ranges, t, p, depth, previous);
      var q := p + |PrintNode(node)|;
      var rest := PayloadFound(ranges, t, q, depth, After(ranges, node));
      payload := Then(node, rest);
      HereSplits(t, p, PrintNode(node), Print(rest) + "}");
      HereFirst(t, q, Print(rest) + "}");
      ThenIsGood(ranges, node, rest, previous);
    }
  }

  lemma EmptyIsGood(ranges: Ranges, previous: bool)
    ensures Good(ranges, Empty, previous, '}') && Print(Empty) + "}" == "}" && |Print(Empty)| == 0
  {
  }

  lemma BracesAreGood(ranges: Ranges, inner: Payload, rest: Payload, previous: bool)
    requires Good(ranges, inner, false, '}') && Good(ranges, rest, false, '}')
    ensures Good(ranges, Then(Braces(inner), rest), previous, '}')
    ensures Print(Then(Braces(inner), rest)) + "}" == "{" + ((Print(inner) + "}") + (Print(rest) + "}"))
    ensures |Print(Then(Braces(inner), rest))| == |Print(inner)| + |Print(rest)| + 2
  {
    BracesPrint(inner, rest);
    hide Print;
  }

  lemma BracesPrint(inner: Payload, rest: Payload)
    ensures Print(Then(Braces(inner), rest)) + "}" == "{" + ((Print(inner) + "}") + (Print(rest) + "}"))
    ensures |Print(Then(Braces(inner), rest))| == |Print(inner)| + |Print(rest)| + 2
  {
    PrintedBraces(inner, rest);
    hide Print, PrintNode;
    Regroup(Print(inner), Print(rest));
  }

  lemma PrintedBraces(inner: Payload, rest: Payload)
    ensures Print(Then(Braces(inner), rest)) == "{" + Print(inner) + "}" + Print(rest)
  {
  }

  lemma Regroup(a: string, b: string)
    ensures "{" + a + "}" + b + "}" == "{" + ((a + "}") + (b + "}"))
  {
  }

  lemma ThenIsGood(ranges: Ranges, node: Node, rest: Payload, previous: bool)
    requires !node.Braces? && Good(ranges, rest, After(ranges, node), '}')
    ensures GoodNode(node, previous, First(Print(rest), '}')) ==> Good(ranges, Then(node, rest), previous, '}')
    ensures Print(Then(node, rest)) + "}" == PrintNode(node) + (Print(rest) + "}")
    ensures |Print(Then(node, rest))| == |PrintNode(node)| + |Print(rest)|
    ensures forall x :: First(Print(rest) + "}", x) == First(Print(rest), '}')
  {
  }

  /** A payload in braces, before anything at all. */
  ghost predicate IsBlock(ranges: Ranges, t: string, p: nat, end: nat, payload: Payload) {
    && Good(ranges, payload, false, '}')
    && Here(t, p, "{" + (Print(payload) + "}"))
    && end == p + |Print(payload)| + 2
  }

  /** Printing any well-formed payload in braces, before any suffix, scans as exactly that block. */
  lemma {:induction false} PrintedScans(ranges: Ranges, t: string, p: nat, end: nat, payload: Payload)
    requires IsBlock(ranges, t, p, end, payload)
    ensures t[p] == '{' && BlockEnd(ranges, t, p + 1, 1, false) == Some(end)
  {
    hide BlockEnd, Good;
    var a := Print(payload);
    HereThree(t, p, "{", a, "}");
    HereOne(t, p, '{');
    HereOne(t, p + 1 + |a|, '}');
    PayloadReads(ranges, t, p + 1, payload, 1, false);
    BracesRead(ranges, t, p + 1 + |a|, 1, Last(ranges, payload, false));
  }

  /** The scanner accepts exactly the printed well-formed payloads, and stops right behind them. */
  lemma {:induction false} AcceptsExactly(ranges: Ranges, t: string, p: nat, end: nat)
    requires p < |t|
    ensures t[p] == '{' && BlockEnd(ranges, t, p + 1, 1, false) == Some(end) <==>
            exists payload :: IsBlock(ranges, t, p, end, payload)
  {
    if t[p] == '{' && BlockEnd(ranges, t, p + 1, 1, false) == Some(end) {
      var payload := PayloadFound(ranges, t, p + 1, 1, false);
      HereOne(t, p, '{');
      HereSplits(t, p, "{", Print(payload) + "}");
      assert IsBlock(ranges, t, p, end, payload);
    }
    if payload :| IsBlock(ranges, t, p, end, payload) {
      PrintedScans(ranges, t, p, end, payload);
    }
  }
}
