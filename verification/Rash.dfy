/** `rash_split_line` of the shell (rlibc/rash.c) against a grammar of command lines. */
module Rash {
  import opened Layout

  const NUL: char := '\0'
  const IN: char := '\U{07}'
  const OUT: char := '\U{08}'
  const PIPE: char := '\U{0C}'

  predicate IsBlank(c: char) { c == ' ' || c == '\n' || c == '\t' }

  predicate IsOp(c: char) { c == '|' || c == '<' || c == '>' }

  /** `strchr` with the set of separators; it also finds the terminating NUL. */
  predicate Separates(c: char) { IsBlank(c) || IsOp(c) || c == NUL }

  function OpToken(c: char): string { [if c == '|' then PIPE else if c == '<' then IN else OUT] }

  // ---------------------------------------------------------------- the grammar

  /** A command line is a sequence of pieces. */
  datatype Piece =
    | Plain(c: char)
    | Escaped(c: char)
    | Quoted(s: string)
    | Blank(c: char)
    | Op(c: char)

  predicate PieceOk(p: Piece) {
    match p
    case Plain(c) => !Separates(c) && c != '\'' && c != '\\'
    case Escaped(c) => c != NUL
    case Quoted(s) => Lacks(s, NUL) && '\'' !in s
    case Blank(c) => IsBlank(c)
    case Op(c) => IsOp(c)
  }

  predicate PiecesOk(ps: seq<Piece>) { forall i :: 0 <= i < |ps| ==> PieceOk(ps[i]) }

  /** How a piece is written. */
  function Written(p: Piece): string {
    match p
    case Plain(c) => [c]
    case Escaped(c) => ['\\', c]
    case Quoted(s) => ['\''] + s + ['\'']
    case Blank(c) => [c]
    case Op(c) => [c]
  }

  function Text(ps: seq<Piece>): string { if ps == [] then [] else Written(ps[0]) + Text(ps[1..]) }

  /** What a piece adds to the word it stands in. */
  function Adds(p: Piece): string {
    match p
    case Plain(c) => [c]
    case Escaped(c) => [c]
    case Quoted(s) => s
    case _ => []
  }

  function Emit(word: string): seq<string> { if word == [] then [] else [word] }

  /** The tokens of a line: words end at blanks and operators, empty words are no tokens.  The last word counts
      only when the line ends properly. */
  function Tokens(word: string, ps: seq<Piece>, proper: bool): seq<string>
    decreases |ps|
  {
    if ps == [] then (if proper then Emit(word) else [])
    else match ps[0]
      case Blank(_) => Emit(word) + Tokens([], ps[1..], proper)
      case Op(c) => Emit(word) + [OpToken(c)] + Tokens([], ps[1..], proper)
      case p => Tokens(word + Adds(p), ps[1..], proper)
  }

  // ---------------------------------------------------------------- the lexer

  datatype State = Default | InQuotes | AfterBackslash

  function Next(st: State, c: char): State {
    match st
    case Default => if c == '\'' then InQuotes else if c == '\\' then AfterBackslash else Default
    case InQuotes => if c == '\'' then Default else InQuotes
    case AfterBackslash => Default
  }

  /** The part of a word read so far, after c. */
  function Grow(st: State, word: string, c: char): string {
    match st
    case Default => if Separates(c) then [] else if c == '\'' || c == '\\' then word else word + [c]
    case InQuotes => if c == '\'' then word else word + [c]
    case AfterBackslash => word + [c]
  }

  /** The tokens that c completes. */
  function Out(st: State, word: string, c: char): seq<string> {
    if st == Default && Separates(c) then Emit(word) + if IsOp(c) then [OpToken(c)] else [] else []
  }

  /** What the automaton still emits, from a state with part of a word read; the line's NUL is its last input. */
  function Lex(st: State, word: string, line: string): seq<string>
    decreases |line|
  {
    if line == [] then Out(st, word, NUL)
    else Out(st, word, line[0]) + Lex(Next(st, line[0]), Grow(st, word, line[0]), line[1..])
  }

  lemma LexStep(done: seq<string>, st: State, word: string, line: string, i: nat)
    requires i < |line|
    ensures done + Lex(st, word, line[i..]) ==
            (done + Out(st, word, line[i])) + Lex(Next(st, line[i]), Grow(st, word, line[i]), line[i + 1..])
  {
    assert line[i..][1..] == line[i + 1..];
  }

  lemma LexEnd(st: State, word: string, line: string)
    ensures Lex(st, word, line[|line|..]) == Out(st, word, NUL)
  {
  }

  lemma {:induction false} LexQuoted(word: string, s: string, rest: string)
    requires '\'' !in s
    ensures Lex(InQuotes, word, s + ['\''] + rest) == Lex(Default, word + s, rest)
    decreases |s|
  {
    var line := s + ['\''] + rest;
    if s == [] {
      assert line[1..] == rest && word + s == word;
    } else {
      assert s[0] in s && line[0] == s[0];
      assert line[1..] == s[1..] + ['\''] + rest;
      LexQuoted(word + [s[0]], s[1..], rest);
      assert word + [s[0]] + s[1..] == word + s;
    }
  }

  /** Anywhere outside quotes: what stands between `'` and the next `'` joins the word as it is, */
  lemma QuotesJoin(word: string, s: string, rest: string)
    requires '\'' !in s
    ensures Lex(Default, word, "'" + s + "'" + rest) == Lex(Default, word + s, rest)
  {
    var line := "'" + s + "'" + rest;
    assert line[1..] == s + ['\''] + rest;
    LexQuoted(word, s, rest);
  }

  /** and so does any character after a backslash. */
  lemma EscapeJoins(word: string, c: char, rest: string)
    ensures Lex(Default, word, "\\" + [c] + rest) == Lex(Default, word + [c], rest)
  {
    var line := "\\" + [c] + rest;
    var more := line[1..];
    assert more[0] == c && more[1..] == rest;
    assert Lex(Default, word, line) == [] + Lex(AfterBackslash, word, more);
  }

  lemma LexOne(word: string, c: char, rest: string)
    ensures Lex(Default, word, [c] + rest) == Out(Default, word, c) + Lex(Next(Default, c), Grow(Default, word, c), rest)
  {
    assert ([c] + rest)[1..] == rest;
  }

  lemma LexPiece(word: string, p: Piece, rest: string)
    requires PieceOk(p)
    ensures Lex(Default, word, Written(p) + rest) ==
            match p
            case Blank(_) => Emit(word) + Lex(Default, [], rest)
            case Op(c) => Emit(word) + [OpToken(c)] + Lex(Default, [], rest)
            case _ => Lex(Default, word + Adds(p), rest)
  {
    match p
    case Quoted(s) => QuotesJoin(word, s, rest);
    case Escaped(c) =>
      EscapeJoins(word, c, rest);
      assert Written(p) + rest == "\\" + [c] + rest;
    case Plain(c) => LexOne(word, c, rest);
    case Blank(c) => LexOne(word, c, rest);
    case Op(c) => LexOne(word, c, rest);
  }

  lemma {:induction false} LexText(word: string, ps: seq<Piece>, tail: string)
    requires PiecesOk(ps) && IsTail(tail)
    ensures Lex(Default, word, Text(ps) + tail) == Tokens(word, ps, tail == [])
    decreases |ps|
  {
    if ps == [] {
      LexTail(word, tail);
      assert Text(ps) + tail == tail;
    } else {
      var rest := Text(ps[1..]) + tail;
      assert Text(ps) + tail == Written(ps[0]) + rest;
      LexPiece(word, ps[0], rest);
      match ps[0]
      case Blank(_) => LexText([], ps[1..], tail);
      case Op(_) => LexText([], ps[1..], tail);
      case p => LexText(word + Adds(p), ps[1..], tail);
    }
  }

  /** How a line can end improperly: a lone backslash or an open quote. */
  predicate IsTail(t: string) { t == [] || t == ['\\'] || (t[0] == '\'' && '\'' !in t[1..]) }

  lemma {:induction false} LexOpen(word: string, s: string)
    requires '\'' !in s
    ensures Lex(InQuotes, word, s) == []
    decreases |s|
  {
    if s != [] {
      assert s[0] in s;
      LexOpen(word + [s[0]], s[1..]);
    }
  }

  lemma LexTail(word: string, tail: string)
    requires IsTail(tail)
    ensures Lex(Default, word, tail) == if tail == [] then Emit(word) else []
  {
    if tail != [] {
      if tail[0] == '\'' {
        LexOpen(word, tail[1..]);
      } else {
        assert tail[1..] == [];
      }
    }
  }

  // ---------------------------------------------------------------- every line has a reading

  function QuoteAt(s: string): (k: nat)
    ensures k <= |s| && (k < |s| ==> s[k] == '\'') && '\'' !in s[..k]
  {
    if s == [] || s[0] == '\'' then 0
    else
      var k := QuoteAt(s[1..]);
      assert s[..k + 1] == [s[0]] + s[1..][..k];
      k + 1
  }

  /** The piece a line starts with and how much of the line it takes; 0 when the line has ended, properly or not. */
  function Lead(line: string): (r: (Piece, nat))
    ensures r.1 <= |line|
  {
    if line == [] then (Blank(' '), 0)
    else
      var c, rest := line[0], line[1..];
      if c == '\\' then (if rest == [] then (Blank(' '), 0) else (Escaped(rest[0]), 2))
      else if c == '\'' then
        var k := QuoteAt(rest);
        if k == |rest| then (Blank(' '), 0) else (Quoted(rest[..k]), k + 2)
      else (if IsBlank(c) then Blank(c) else if IsOp(c) then Op(c) else Plain(c), 1)
  }

  lemma LeadWrites(line: string)
    requires Lacks(line, NUL)
    ensures var (p, n) := Lead(line); if n == 0 then IsTail(line) else PieceOk(p) && line == Written(p) + line[n..]
  {
    if line != [] {
      if line[0] == '\\' {
        assert |line| > 1 ==> line == ['\\', line[1]] + line[2..];
      } else if line[0] == '\'' {
        LeadQuote(line);
      } else {
        assert line == [line[0]] + line[1..];
      }
    }
  }

  lemma LeadQuote(line: string)
    requires Lacks(line, NUL) && line != [] && line[0] == '\''
    ensures var (p, n) := Lead(line); if n == 0 then IsTail(line) else PieceOk(p) && line == Written(p) + line[n..]
  {
    var rest := line[1..];
    var k := QuoteAt(rest);
    if k < |rest| {
      assert line == ['\''] + rest[..k] + ['\''] + line[k + 2..];
    } else {
      assert rest[..k] == rest;
    }
  }

  /** The pieces of a line and its improper end. */
  function Parse(line: string): (r: (seq<Piece>, string))
    decreases |line|
  {
    var (p, n) := Lead(line);
    if n == 0 then ([], line) else ([p] + Parse(line[n..]).0, Parse(line[n..]).1)
  }

  lemma PrependPiece(p: Piece, ps: seq<Piece>, tail: string)
    ensures Text([p] + ps) + tail == Written(p) + (Text(ps) + tail)
    ensures PieceOk(p) && PiecesOk(ps) ==> PiecesOk([p] + ps)
  {
    assert ([p] + ps)[1..] == ps;
  }

  lemma {:induction false} ParseWrites(line: string)
    requires Lacks(line, NUL)
    ensures PiecesOk(Parse(line).0) && IsTail(Parse(line).1)
    ensures Text(Parse(line).0) + Parse(line).1 == line
    decreases |line|
  {
    LeadWrites(line);
    var (p, n) := Lead(line);
    if n > 0 {
      ParseWrites(line[n..]);
      PrependPiece(p, Parse(line[n..]).0, Parse(line[n..]).1);
    }
  }

  /** Every line has a reading in the grammar, and the lexer returns the tokens of any reading it has. */
  lemma SplitsByGrammar(line: string, ps: seq<Piece>, tail: string)
    requires Lacks(line, NUL)
    ensures PiecesOk(Parse(line).0) && IsTail(Parse(line).1) && line == Text(Parse(line).0) + Parse(line).1
    ensures PiecesOk(ps) && IsTail(tail) && line == Text(ps) + tail ==> Lex(Default, [], line) == Tokens([], ps, tail == [])
  {
    ParseWrites(line);
    if PiecesOk(ps) && IsTail(tail) && line == Text(ps) + tail {
      LexText([], ps, tail);
    }
  }

  // ---------------------------------------------------------------- character by character

  /** A character that only stands for itself. */
  predicate Ordinary(c: char) { c !in " \n\t|<>'\\\0" }

  predicate AllOrdinary(w: string) { forall k :: 0 <= k < |w| ==> Ordinary(w[k]) }

  /** The tokens between two words that this character separates. */
  function Between(c: char): seq<string> {
    if c == '|' then [['\U{0C}']] else if c == '<' then [['\U{07}']] else if c == '>' then [['\U{08}']] else []
  }

  lemma OneChar(st: State, word: string, c: char)
    requires st == Default
    ensures Ordinary(c) ==> Next(st, c) == Default && Grow(st, word, c) == word + [c] && Out(st, word, c) == []
    ensures c in " \n\t|<>\0" ==>
              Next(st, c) == Default && Grow(st, word, c) == [] && Out(st, word, c) == (if word == [] then [] else [word]) + Between(c)
  {
  }

  /** Ordinary characters stay in the word. */
  lemma {:induction false} OrdinaryStay(word: string, w: string, rest: string)
    requires AllOrdinary(w)
    ensures Lex(Default, word, w + rest) == Lex(Default, word + w, rest)
    decreases |w|
  {
    if w == [] {
      assert w + rest == rest && word + w == word;
    } else {
      assert (w + rest)[1..] == w[1..] + rest;
      OneChar(Default, word, w[0]);
      OrdinaryStay(word + [w[0]], w[1..], rest);
      assert word + [w[0]] + w[1..] == word + w;
    }
  }

  /** Ordinary characters up to the end of the line. */
  lemma LastWord(w: string)
    requires AllOrdinary(w)
    ensures Lex(Default, [], w) == if w == [] then [] else [w]
  {
    OrdinaryStay([], w, []);
    assert w + [] == w && [] + w == w;
  }

  /** Ordinary characters up to a blank, a line break, a tab or one of the three operators: they are a word, unless there are
      none; the operator is a token of its own, and the rest of the line is split as if it stood alone. */
  lemma WordEnds(w: string, c: char, rest: string)
    requires AllOrdinary(w) && c in " \n\t|<>"
    ensures Lex(Default, [], w + [c] + rest) == (if w == [] then [] else [w]) + Between(c) + Lex(Default, [], rest)
  {
    OrdinaryStay([], w, [c] + rest);
    assert w + ([c] + rest) == w + [c] + rest && [] + w == w;
    LexOne(w, c, rest);
    OneChar(Default, w, c);
  }

  /** Two words with one separator between them. */
  lemma TwoWords(line: string, i: nat)
    requires 0 < i < |line| - 1 && AllOrdinary(line[..i]) && AllOrdinary(line[i + 1..]) && line[i] in " \n\t|<>"
    ensures Lex(Default, [], line) == [line[..i]] + Between(line[i]) + [line[i + 1..]]
  {
    var w, rest := line[..i], line[i + 1..];
    assert line == w + [line[i]] + rest;
    WordEnds(w, line[i], rest);
    LastWord(rest);
  }

  lemma SplitsWords(line: string)
    ensures line != [] && AllOrdinary(line) ==> Lex(Default, [], line) == [line]
    ensures forall i {:trigger line[i]} ::
              0 < i < |line| - 1 && AllOrdinary(line[..i]) && AllOrdinary(line[i + 1..]) && line[i] in " \n\t|<>" ==>
                Lex(Default, [], line) == [line[..i]] + Between(line[i]) + [line[i + 1..]]
  {
    if AllOrdinary(line) {
      LastWord(line);
    }
    forall i | 0 < i < |line| - 1 && AllOrdinary(line[..i]) && AllOrdinary(line[i + 1..]) && line[i] in " \n\t|<>"
      ensures Lex(Default, [], line) == [line[..i]] + Between(line[i]) + [line[i + 1..]]
    {
      TwoWords(line, i);
    }
  }

  lemma FileAfter(file: string)
    requires AllOrdinary(file) && file != []
    ensures Lex(Default, [], ['>'] + file) == [['\U{08}'], file]
  {
    LexOne([], '>', file);
    OneChar(Default, [], '>');
    LastWord(file);
  }

  /** A command with its output redirected, as in `ls >f`. */
  lemma Redirects(command: string, file: string)
    requires AllOrdinary(command) && AllOrdinary(file) && command != [] && file != []
    ensures Lex(Default, [], command + " >" + file) == [command, ['\U{08}'], file]
  {
    var rest := ['>'] + file;
    assert command + " >" + file == command + [' '] + rest;
    WordEnds(command, ' ', rest);
    FileAfter(file);
  }

  // ---------------------------------------------------------------- quoting is faithful

  datatype Item = Word(w: string, quoted: bool) | Operator(c: char)

  predicate ItemOk(it: Item) {
    match it
    case Word(w, quoted) => w != [] && Lacks(w, NUL) && (quoted ==> '\'' !in w)
    case Operator(c) => IsOp(c)
  }

  function Escapes(w: string): seq<Piece> { seq(|w|, i requires 0 <= i < |w| => Escaped(w[i])) }

  /** A word in quotes or with every character escaped, or an operator; then a blank. */
  function ItemPieces(it: Item): seq<Piece> {
    match it
    case Word(w, quoted) => (if quoted then [Quoted(w)] else Escapes(w)) + [Blank(' ')]
    case Operator(c) => [Op(c), Blank(' ')]
  }

  function AllPieces(items: seq<Item>): seq<Piece> { if items == [] then [] else ItemPieces(items[0]) + AllPieces(items[1..]) }

  function ItemToken(it: Item): string { if it.Word? then it.w else OpToken(it.c) }

  lemma {:induction false} EscapedWord(word: string, w: string, ps: seq<Piece>)
    requires Lacks(w, NUL)
    ensures Tokens(word, Escapes(w) + ps, true) == Tokens(word + w, ps, true)
    decreases |w|
  {
    if w == [] {
      assert Escapes(w) + ps == ps && word + w == word;
    } else {
      assert (Escapes(w) + ps)[0] == Escaped(w[0]);
      assert (Escapes(w) + ps)[1..] == Escapes(w[1..]) + ps;
      EscapedWord(word + [w[0]], w[1..], ps);
      assert word + [w[0]] + w[1..] == word + w;
    }
  }

  lemma ItemTokens(it: Item, ps: seq<Piece>)
    requires ItemOk(it)
    ensures Tokens([], ItemPieces(it) + ps, true) == [ItemToken(it)] + Tokens([], ps, true)
  {
    match it
    case Word(w, quoted) => WordTokens(w, quoted, ps);
    case Operator(c) =>
      var qs := [Blank(' ')] + ps;
      assert ItemPieces(it) + ps == [Op(c)] + qs;
      assert ([Op(c)] + qs)[1..] == qs && qs[1..] == ps;
  }

  lemma WordTokens(w: string, quoted: bool, ps: seq<Piece>)
    requires ItemOk(Word(w, quoted))
    ensures Tokens([], ItemPieces(Word(w, quoted)) + ps, true) == [w] + Tokens([], ps, true)
  {
    var qs := [Blank(' ')] + ps;
    assert [] + w == w;
    if quoted {
      assert ItemPieces(Word(w, quoted)) + ps == [Quoted(w)] + qs;
      assert ([Quoted(w)] + qs)[1..] == qs;
    } else {
      assert ItemPieces(Word(w, quoted)) + ps == Escapes(w) + qs;
      EscapedWord([], w, qs);
    }
    EndOfWord(w, ps);
  }

  lemma EndOfWord(w: string, ps: seq<Piece>)
    requires w != []
    ensures Tokens(w, [Blank(' ')] + ps, true) == [w] + Tokens([], ps, true)
  {
    assert ([Blank(' ')] + ps)[1..] == ps;
  }

  lemma {:induction false} ItemsOk(items: seq<Item>)
    requires forall i :: 0 <= i < |items| ==> ItemOk(items[i])
    ensures PiecesOk(AllPieces(items)) && |Tokens([], AllPieces(items), true)| == |items|
    ensures forall i :: 0 <= i < |items| ==> Tokens([], AllPieces(items), true)[i] == ItemToken(items[i])
    decreases |items|
  {
    if items != [] {
      ItemsOk(items[1..]);
      ItemTokens(items[0], AllPieces(items[1..]));
    }
  }

  /** The line that writes each word escaped or quoted gives the words and the marks of the operators, in order. */
  lemma QuotingRoundTrip(items: seq<Item>)
    requires forall i :: 0 <= i < |items| ==> ItemOk(items[i])
    ensures var toks := Lex(Default, [], Text(AllPieces(items)));
            |toks| == |items| && forall i :: 0 <= i < |items| ==> toks[i] == ItemToken(items[i])
  {
    ItemsOk(items);
    LexText([], AllPieces(items), []);
    assert Text(AllPieces(items)) + [] == Text(AllPieces(items));
  }

  // ---------------------------------------------------------------- reading tokens back

  /** The marks of the operators are ordinary characters: a word can be one of them, quoted or not. */
  predicate IsMark(tok: string) { tok == [PIPE] || tok == [IN] || tok == [OUT] }

  /** An item, however it was quoted. */
  function Bare(it: Item): Item { if it.Word? then Word(it.w, false) else it }

  /** What a token stands for, as far as it can be told. */
  function ReadBack(tok: string): Item {
    if tok == [PIPE] then Operator('|') else if tok == [IN] then Operator('<') else if tok == [OUT] then Operator('>') else Word(tok, false)
  }

  /** What `rash_launch` takes an argument for that it looks at: it only asks whether the mark occurs in it. */
  function TakenFor(tok: string): Item {
    if PIPE in tok then Operator('|') else if IN in tok then Operator('<') else if OUT in tok then Operator('>') else Word(tok, false)
  }

  /** A quoted form feed comes back as a pipe. */
  lemma QuotedPipe()
    ensures ItemOk(Word([PIPE], true)) && ItemOk(Operator('|'))
    ensures Lex(Default, [], Text(AllPieces([Word([PIPE], true)]))) == [[PIPE]] == Lex(Default, [], Text(AllPieces([Operator('|')])))
  {
    QuotingRoundTrip([Word([PIPE], true)]);
    QuotingRoundTrip([Operator('|')]);
  }

  lemma OneReadBack(it: Item)
    requires ItemOk(it)
    ensures ReadBack(ItemToken(it)) == Bare(it) <==> (it.Word? ==> !IsMark(it.w))
    ensures TakenFor(ItemToken(it)) == Bare(it) <==> (it.Word? ==> PIPE !in it.w && IN !in it.w && OUT !in it.w)
  {
  }

  /** The tokens give the items back, up to how a word was quoted, exactly when no word is the mark of an operator. */
  lemma ReadsBackIff(items: seq<Item>)
    requires forall i :: 0 <= i < |items| ==> ItemOk(items[i])
    ensures var toks := Lex(Default, [], Text(AllPieces(items)));
            && |toks| == |items|
            && ((forall i :: 0 <= i < |items| ==> ReadBack(toks[i]) == Bare(items[i])) <==>
                (forall i :: 0 <= i < |items| && items[i].Word? ==> !IsMark(items[i].w)))
  {
    QuotingRoundTrip(items);
    forall i | 0 <= i < |items|
      ensures ReadBack(ItemToken(items[i])) == Bare(items[i]) <==> (items[i].Word? ==> !IsMark(items[i].w))
    {
      OneReadBack(items[i]);
    }
  }

  /** `rash_launch` takes each argument for what was written exactly when no word contains a mark. */
  lemma TakenRightIff(items: seq<Item>)
    requires forall i :: 0 <= i < |items| ==> ItemOk(items[i])
    ensures var toks := Lex(Default, [], Text(AllPieces(items)));
            && |toks| == |items|
            && ((forall i :: 0 <= i < |items| ==> TakenFor(toks[i]) == Bare(items[i])) <==>
                (forall i :: 0 <= i < |items| && items[i].Word? ==> PIPE !in items[i].w && IN !in items[i].w && OUT !in items[i].w))
  {
    QuotingRoundTrip(items);
    forall i | 0 <= i < |items|
      ensures TakenFor(ItemToken(items[i])) == Bare(items[i]) <==>
              (items[i].Word? ==> PIPE !in items[i].w && IN !in items[i].w && OUT !in items[i].w)
    {
      OneReadBack(items[i]);
    }
  }

  /** Two lists without such words that give the same tokens are the same, up to how words were quoted. */
  lemma TokensDetermine(items: seq<Item>, others: seq<Item>)
    requires forall i :: 0 <= i < |items| ==> ItemOk(items[i]) && (items[i].Word? ==> !IsMark(items[i].w))
    requires forall i :: 0 <= i < |others| ==> ItemOk(others[i]) && (others[i].Word? ==> !IsMark(others[i].w))
    requires Lex(Default, [], Text(AllPieces(items))) == Lex(Default, [], Text(AllPieces(others)))
    ensures |items| == |others| && forall i :: 0 <= i < |items| ==> Bare(items[i]) == Bare(others[i])
  {
    ReadsBackIff(items);
    ReadsBackIff(others);
  }

  // ---------------------------------------------------------------- the code

  /** A bigger block with the old contents, as `realloc` gives. */
  method Realloc(a: array<char>, n: nat) returns (b: array<char>)
    requires a.Length <= n
    ensures fresh(b) && b.Length == n && b[..a.Length] == a[..]
  {
    b := new char[n](_ => NUL);
    for i := 0 to a.Length
      invariant b[..i] == a[..i]
    {
      b[i] := a[i];
    }
  }

  /** The local variables of `rash_split_line`. */
  class Lexer {
    var token: array<char>
    var tokbuf: nat
    var len: nat
    var tokens: seq<string>
    var st: State

    /** The buffer has room for the next character, or for the NUL that ends a word. */
    ghost predicate Valid()
      reads this
    {
      len < tokbuf == token.Length
    }

    ghost function Word(): string
      reads this, token
      requires len <= token.Length
    {
      token[..len]
    }

    constructor ()
      ensures Valid() && fresh(token) && Word() == [] && tokens == [] && st == Default
    {
      token := new char[16](_ => NUL);
      tokbuf, len, tokens, st := 16, 0, [], Default;
    }

    method Append(c: char)
      requires Valid()
      modifies this`len, token
      ensures token == old(token) && len == old(len) + 1 && Word() == old(Word()) + [c]
    {
      token[len] := c;
      len := len + 1;
    }

    /** A separator ends the word, if there is one. */
    method EndWord()
      requires Valid()
      modifies this, token
      ensures Valid() && st == old(st) && tokbuf == old(tokbuf) && (token == old(token) || fresh(token))
      ensures Word() == [] && tokens == old(tokens) + Emit(old(Word()))
    {
      if len > 0 {
        token[len] := NUL;
        tokens := tokens + [token[..len]];
        token := new char[tokbuf](_ => NUL);
        len := 0;
      }
    }

    /** The switch. */
    method Feed(c: char)
      requires Valid()
      modifies this, token
      ensures len <= tokbuf == token.Length && tokbuf == old(tokbuf) && (token == old(token) || fresh(token))
      ensures st == Next(old(st), c) && Word() == Grow(old(st), old(Word()), c)
      ensures tokens == old(tokens) + Out(old(st), old(Word()), c)
      ensures old(st) == Default && Ordinary(c) ==> Word() == old(Word()) + [c] && tokens == old(tokens)
      ensures old(st) == Default && c in " \n\t|<>\0" ==>
                Word() == [] && tokens == old(tokens) + ((if old(Word()) == [] then [] else [old(Word())]) + Between(c))
    {
      OneChar(Default, Word(), c);
      match st {
        case Default =>
          if Separates(c) {
            EndWord();
            if IsOp(c) {
              tokens := tokens + [OpToken(c)];
            }
          } else if c == '\'' {
            st := InQuotes;
          } else if c == '\\' {
            st := AfterBackslash;
          } else {
            Append(c);
          }
        case InQuotes =>
          if c == '\'' {
            st := Default;
          } else {
            Append(c);
          }
        case AfterBackslash =>
          Append(c);
          st := Default;
      }
    }

    /** A full buffer is doubled. */
    method MakeRoom()
      requires len <= tokbuf == token.Length && tokbuf > 0
      modifies this`token, this`tokbuf
      ensures Valid() && Word() == old(Word()) && (token == old(token) || fresh(token))
    {
      if len >= tokbuf {
        tokbuf := 2 * tokbuf;
        token := Realloc(token, tokbuf);
      }
    }
  }

  /** `rash_split_line`: the NUL is the last character the loop handles. */
  method SplitLine(line: string) returns (tokens: seq<string>)
    requires Lacks(line, NUL)
    ensures tokens == Lex(Default, [], line)
    ensures line != [] && AllOrdinary(line) ==> tokens == [line]
    ensures forall i {:trigger line[i]} ::
              0 < i < |line| - 1 && AllOrdinary(line[..i]) && AllOrdinary(line[i + 1..]) && line[i] in " \n\t|<>" ==>
                tokens == [line[..i]] + Between(line[i]) + [line[i + 1..]]
  {
    var lx := new Lexer();
    ghost var all := Lex(Default, [], line);
    assert line[0..] == line;
    var i := 0;
    while true
      invariant 0 <= i <= |line| && lx.Valid() && fresh(lx) && fresh(lx.token)
      invariant lx.tokens + Lex(lx.st, lx.Word(), line[i..]) == all
      decreases |line| - i
    {
      var c := if i < |line| then line[i] else NUL;
      if i < |line| {
        LexStep(lx.tokens, lx.st, lx.Word(), line, i);
      } else {
        LexEnd(lx.st, lx.Word(), line);
      }
      lx.Feed(c);
      lx.MakeRoom();
      if c == NUL { break; }
      i := i + 1;
    }
    tokens := lx.tokens;
    SplitsWords(line);
  }
}
