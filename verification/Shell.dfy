/**
 The shell's command parser.  A line is a sequence of characters without NUL; the
 buffer holds it with a NUL after it.  Pointers into the buffer are indices.
 */
module Shell {
  const MAXARGS := 10
  const NUL := '\0'

  predicate IsSpace(c: char) {
    c in " \t\r\n\U{0B}"
  }

  predicate IsSymbol(c: char) {
    c in "<|>&;()"
  }

  predicate IsWord(c: char) {
    !IsSpace(c) && !IsSymbol(c)
  }

  /** The text from start up to, not including, end. */
  datatype Span = Span(start: nat, end: nat)

  datatype Kind = End | Symbol(c: char) | Append | Word

  datatype Token = Token(kind: Kind, span: Span)

  // ----- the tokens of a line -----

  function SkipSpace(s: string, p: nat): (r: nat)
    requires p <= |s|
    ensures p <= r <= |s| && (r < |s| ==> !IsSpace(s[r]))
    decreases |s| - p
  {
    if p < |s| && IsSpace(s[p]) then SkipSpace(s, p + 1) else p
  }

  function SkipWord(s: string, p: nat): (r: nat)
    requires p <= |s|
    ensures p <= r <= |s| && (r < |s| ==> !IsWord(s[r])) && forall i :: p <= i < r ==> IsWord(s[i])
    decreases |s| - p
  {
    if p < |s| && IsWord(s[p]) then SkipWord(s, p + 1) else p
  }

  /** The token that starts at or after p. */
  function TokenAt(s: string, p: nat): (t: Token)
    requires p <= |s|
    ensures t.span.start == SkipSpace(s, p) <= t.span.end <= |s|
    ensures t.kind == End <==> SkipSpace(s, p) == |s|
    ensures t.kind != End ==> t.span.start < t.span.end
  {
    var q := SkipSpace(s, p);
    if q == |s| then Token(End, Span(q, q))
    else if s[q] == '>' then
      if q + 1 < |s| && s[q + 1] == '>' then Token(Append, Span(q, q + 2)) else Token(Symbol('>'), Span(q, q + 1))
    else if IsSymbol(s[q]) then Token(Symbol(s[q]), Span(q, q + 1))
    else Token(Word, Span(q, SkipWord(s, q)))
  }

  /** The tokens from p to the end of the line. */
  ghost function Tokens(s: string, p: nat): (ts: seq<Token>)
    requires p <= |s|
    decreases |s| - p
  {
    var t := TokenAt(s, p);
    if t.kind == End then [] else [t] + Tokens(s, t.span.end)
  }

  lemma {:induction false} SkipTwice(s: string, p: nat)
    requires p <= |s|
    ensures SkipSpace(s, SkipSpace(s, p)) == SkipSpace(s, p)
  {
  }

  lemma {:induction false} SkippedIsSpace(s: string, p: nat, i: nat)
    requires p <= |s| && p <= i < SkipSpace(s, p)
    ensures IsSpace(s[i])
    decreases |s| - p
  {
    if i > p {
      SkippedIsSpace(s, p + 1, i);
    }
  }

  /** The tokens cover exactly the characters that are not space. */
  lemma {:induction false} TokensCover(s: string, p: nat, i: nat)
    requires p <= i < |s|
    ensures !IsSpace(s[i]) <==> exists k :: 0 <= k < |Tokens(s, p)| && Tokens(s, p)[k].span.start <= i < Tokens(s, p)[k].span.end
    decreases |s| - p
  {
    var ts := Tokens(s, p);
    if i < SkipSpace(s, p) {
      SkippedIsSpace(s, p, i);
      forall k | 0 <= k < |ts| ensures i < ts[k].span.start {
        TokensAfter(s, p, k);
      }
    } else {
      var t := TokenAt(s, p);
      assert t.kind != End && ts == [t] + Tokens(s, t.span.end);
      if i < t.span.end {
        TokenIsText(s, p, i);
        assert ts[0].span.start <= i < ts[0].span.end;
      } else {
        TokensCover(s, t.span.end, i);
        ghost var us := Tokens(s, t.span.end);
        assert forall k :: 0 < k < |ts| ==> ts[k] == us[k - 1];
        if k :| 0 <= k < |us| && us[k].span.start <= i < us[k].span.end {
          assert ts[k + 1].span.start <= i < ts[k + 1].span.end;
        }
      }
    }
  }

  lemma {:induction false} TokensAfter(s: string, p: nat, k: nat)
    requires p <= |s| && k < |Tokens(s, p)|
    ensures SkipSpace(s, p) <= Tokens(s, p)[k].span.start
    decreases |s| - p
  {
    if k > 0 {
      TokensAfter(s, TokenAt(s, p).span.end, k - 1);
    }
  }

  lemma {:induction false} TokenIsText(s: string, p: nat, i: nat)
    requires p <= |s| && TokenAt(s, p).span.start <= i < TokenAt(s, p).span.end
    ensures !IsSpace(s[i])
  {
  }

  /** No word of the line goes on across p. */
  ghost predicate Boundary(s: string, p: nat) {
    p == 0 || p >= |s| || !IsWord(s[p - 1]) || !IsWord(s[p])
  }

  lemma {:induction false} NextBoundary(s: string, p: nat)
    requires p <= |s| && Boundary(s, p) && TokenAt(s, p).kind != End
    ensures Boundary(s, TokenAt(s, p).span.end)
  {
  }

  /** The kind of one token, read off its characters. */
  lemma {:induction false} KindOfToken(s: string, p: nat)
    requires p <= |s| && Boundary(s, p) && TokenAt(s, p).kind != End
    ensures ReadsAs(s, TokenAt(s, p))
  {
    var t := TokenAt(s, p);
    var q, e := t.span.start, t.span.end;
    if p < q {
      SkippedIsSpace(s, p, q - 1);
    }
    if t.kind == Word {
      assert s[q..e][0] == s[q] && IsWord(s[q]);
    } else if t.kind == Append {
      assert s[q..e] == ">>";
    } else {
      assert s[q..e] == [s[q]];
    }
  }

  /**
   A symbol is the single character; two > in a row are an append; a word is a longest
   stretch of characters that are neither space nor symbol.
   */
  ghost predicate ReadsAs(s: string, t: Token) {
    && t.span.start < t.span.end <= |s|
    && var text, before, after := s[t.span.start..t.span.end], t.span.start - 1, t.span.end;
    && (forall c :: t.kind == Symbol(c) <==> text == [c] && c in "<|>&;()" && !(c == '>' && after < |s| && s[after] == '>'))
    && (t.kind == Append <==> text == ">>")
    && (t.kind == Word <==>
          && (forall i :: t.span.start <= i < t.span.end ==> s[i] !in " \t\r\n\U{0B}" && s[i] !in "<|>&;()")
          && (before >= 0 ==> s[before] in " \t\r\n\U{0B}" || s[before] in "<|>&;()")
          && (after < |s| ==> s[after] in " \t\r\n\U{0B}" || s[after] in "<|>&;()"))
  }

  lemma {:induction false} TokensReadFrom(s: string, p: nat, k: nat)
    requires p <= |s| && Boundary(s, p) && k < |Tokens(s, p)|
    ensures ReadsAs(s, Tokens(s, p)[k])
    decreases |s| - p
  {
    hide ReadsAs;
    if k == 0 {
      KindOfToken(s, p);
    } else {
      NextBoundary(s, p);
      TokensReadFrom(s, TokenAt(s, p).span.end, k - 1);
    }
  }

  /** Every token of a line is what its characters say. */
  lemma {:induction false} TokensRead(s: string, k: nat)
    requires k < |Tokens(s, 0)|
    ensures var t := Tokens(s, 0)[k];
            && t.span.start < t.span.end <= |s|
            && var text, before, after := s[t.span.start..t.span.end], t.span.start - 1, t.span.end;
            && (forall c :: t.kind == Symbol(c) <==> text == [c] && c in "<|>&;()" && !(c == '>' && after < |s| && s[after] == '>'))
            && (t.kind == Append <==> text == ">>")
            && (t.kind == Word <==>
                  && (forall i :: t.span.start <= i < t.span.end ==> s[i] !in " \t\r\n\U{0B}" && s[i] !in "<|>&;()")
                  && (before >= 0 ==> s[before] in " \t\r\n\U{0B}" || s[before] in "<|>&;()")
                  && (after < |s| ==> s[after] in " \t\r\n\U{0B}" || s[after] in "<|>&;()"))
  {
    TokensReadFrom(s, 0, k);
    hide Tokens;
  }

  /** The words among the tokens. */
  ghost function Words(ts: seq<Token>): seq<Span> {
    if ts == [] then [] else if ts[0].kind == Word then [ts[0].span] + Words(ts[1..]) else Words(ts[1..])
  }

  lemma {:induction false} WordsAppend(ts: seq<Token>, us: seq<Token>)
    ensures Words(ts + us) == Words(ts) + Words(us)
  {
    if ts == [] {
      assert ts + us == us;
    } else {
      WordsAppend(ts[1..], us);
      assert (ts + us)[1..] == ts[1..] + us;
    }
  }

  method SkipSpaces(s: string, p: nat) returns (r: nat)
    requires p <= |s|
    ensures r == SkipSpace(s, p)
  {
    r := p;
    while r < |s| && IsSpace(s[r])
      invariant p <= r <= |s| && SkipSpace(s, r) == SkipSpace(s, p)
    {
      r := r + 1;
    }
  }

  /** Takes the next token; the cursor moves past it and the space after it. */
  method GetToken(s: string, ps: nat) returns (t: Token, ps': nat)
    requires ps <= |s|
    ensures t == TokenAt(s, ps) && ps' == SkipSpace(s, t.span.end) && ps <= ps' <= |s|
    ensures if t.kind == End then Tokens(s, ps) == Tokens(s, ps') == [] else ps < ps' && Tokens(s, ps) == [t] + Tokens(s, ps')
  {
    hide Tokens;
    var q := SkipSpaces(s, ps);
    var eq := q;
    if q == |s| {
      t := Token(End, Span(q, q));
    } else if s[q] == '|' || s[q] == '(' || s[q] == ')' || s[q] == ';' || s[q] == '&' || s[q] == '<' {
      eq := q + 1;
      t := Token(Symbol(s[q]), Span(q, eq));
    } else if s[q] == '>' {
      eq := q + 1;
      if eq < |s| && s[eq] == '>' {
        eq := eq + 1;
        t := Token(Append, Span(q, eq));
      } else {
        t := Token(Symbol('>'), Span(q, eq));
      }
    } else {
      while eq < |s| && !IsSpace(s[eq]) && !IsSymbol(s[eq])
        invariant q <= eq <= |s| && SkipWord(s, eq) == SkipWord(s, q)
      {
        eq := eq + 1;
      }
      t := Token(Word, Span(q, eq));
    }
    ps' := SkipSpaces(s, eq);
    TokensFrom(s, ps);
  }

  lemma {:induction false} TokensFrom(s: string, p: nat)
    requires p <= |s|
    ensures var t := TokenAt(s, p); var q := SkipSpace(s, t.span.end);
            if t.kind == End then Tokens(s, p) == Tokens(s, q) == [] else Tokens(s, p) == [t] + Tokens(s, q)
  {
    SameTokens(s, TokenAt(s, p).span.end);
  }

  /** Space before a token does not matter. */
  lemma {:induction false} SameTokens(s: string, p: nat)
    requires p <= |s|
    ensures Tokens(s, SkipSpace(s, p)) == Tokens(s, p)
  {
    SkipTwice(s, p);
    assert TokenAt(s, SkipSpace(s, p)) == TokenAt(s, p);
  }

  /** Skips space and looks whether one of toks follows. */
  method Peek(s: string, ps: nat, toks: string) returns (found: bool, ps': nat)
    requires ps <= |s|
    ensures ps' == SkipSpace(s, ps) && (found <==> ps' < |s| && s[ps'] in toks)
    ensures ps <= ps' <= |s| && Tokens(s, ps') == Tokens(s, ps)
    ensures OneToken(toks) ==> (found <==> Next(Tokens(s, ps), toks))
    ensures toks == "<>" ==> (found <==> NextRedir(Tokens(s, ps)))
  {
    SameTokens(s, ps);
    ps' := SkipSpaces(s, ps);
    found := ps' < |s| && s[ps'] in toks;
  }

  /** Each of these characters is a token by itself. */
  predicate OneToken(toks: string) {
    forall i :: 0 <= i < |toks| ==> toks[i] in "|()&;"
  }

  // ----- commands -----

  datatype Redirection = Redirection(file: Span, write: bool, fd: nat)

  datatype Cmd =
    | Exec(args: seq<Span>)
    | Redir(cmd: Cmd, to: Redirection)
    | Pipe(left: Cmd, right: Cmd)
    | List(left: Cmd, right: Cmd)
    | Back(cmd: Cmd)

  /** All the words a command refers to. */
  ghost function Spans(c: Cmd): multiset<Span> {
    match c
    case Exec(args) => multiset(args)
    case Redir(d, to) => Spans(d) + multiset{to.file}
    case Pipe(l, r) => Spans(l) + Spans(r)
    case List(l, r) => Spans(l) + Spans(r)
    case Back(d) => Spans(d)
  }

  /** The command c with redirections around it, the first one innermost. */
  function Wrap(c: Cmd, rs: seq<Redirection>): Cmd
    decreases |rs|
  {
    if rs == [] then c else Wrap(Redir(c, rs[0]), rs[1..])
  }

  /** The last redirection is the outermost. */
  lemma {:induction false} WrapLast(c: Cmd, rs: seq<Redirection>, r: Redirection)
    ensures Wrap(c, []) == c && Wrap(c, rs + [r]) == Redir(Wrap(c, rs), r)
    decreases |rs|
  {
    if rs != [] {
      WrapLast(Redir(c, rs[0]), rs[1..], r);
      assert (rs + [r])[1..] == rs[1..] + [r];
    }
  }

  ghost function FileSeq(rs: seq<Redirection>): seq<Span> {
    seq(|rs|, i requires 0 <= i < |rs| => rs[i].file)
  }

  ghost function Files(rs: seq<Redirection>): multiset<Span> {
    multiset(FileSeq(rs))
  }

  lemma {:induction false} WrapSpans(c: Cmd, rs: seq<Redirection>)
    ensures Spans(Wrap(c, rs)) == Spans(c) + Files(rs)
    decreases |rs|
  {
    if rs != [] {
      WrapSpans(Redir(c, rs[0]), rs[1..]);
      assert FileSeq(rs) == [rs[0].file] + FileSeq(rs[1..]);
    } else {
      assert FileSeq(rs) == [];
    }
  }

  // ----- the grammar -----

  ghost predicate IsSymbolToken(t: Token, c: char) {
    t.kind == Symbol(c)
  }

  /** The operator op and the word f are the redirection r. */
  ghost predicate IsRedirection(op: Token, f: Token, r: Redirection) {
    && f.kind == Word && r.file == f.span
    && (if op.kind == Symbol('<') then !r.write && r.fd == 0 else (op.kind == Symbol('>') || op.kind == Append) && r.write && r.fd == 1)
  }

  /** Words and redirections in any order; args and rs list each kind in order. */
  ghost predicate Simple(ts: seq<Token>, args: seq<Span>, rs: seq<Redirection>)
    decreases |ts|
  {
    if ts == [] then args == [] && rs == []
    else if ts[0].kind == Word then args != [] && args[0] == ts[0].span && Simple(ts[1..], args[1..], rs)
    else |ts| >= 2 && rs != [] && IsRedirection(ts[0], ts[1], rs[0]) && Simple(ts[2..], args, rs[1..])
  }

  /** A line: commands with any number of & after each, separated by ; . */
  ghost predicate Line(c: Cmd, ts: seq<Token>)
    decreases |ts|, 4
  {
    Backs(c, ts) ||
    (c.List? && exists k :: 0 <= k < |ts| && IsSymbolToken(ts[k], ';') && Backs(c.left, ts[..k]) && Line(c.right, ts[k + 1..]))
  }

  ghost predicate Backs(c: Cmd, ts: seq<Token>)
    decreases |ts|, 3
  {
    Pipeline(c, ts) || (c.Back? && ts != [] && IsSymbolToken(ts[|ts| - 1], '&') && Backs(c.cmd, ts[..|ts| - 1]))
  }

  /** Simple commands and blocks separated by | . */
  ghost predicate Pipeline(c: Cmd, ts: seq<Token>)
    decreases |ts|, 2
  {
    Unit(c, ts) ||
    (c.Pipe? && exists k :: 0 <= k < |ts| && IsSymbolToken(ts[k], '|') && Unit(c.left, ts[..k]) && Pipeline(c.right, ts[k + 1..]))
  }

  ghost predicate Unit(c: Cmd, ts: seq<Token>)
    decreases |ts|, 1
  {
    (exists d, rs, k :: Block(c, ts, d, rs, k)) || exists args, rs :: Simple(ts, args, rs) && IsExec(c, args, rs)
  }

  ghost predicate IsExec(c: Cmd, args: seq<Span>, rs: seq<Redirection>) {
    c == Wrap(Exec(args), rs) && |args| < MAXARGS
  }

  /** A line d in parentheses, closed at k, and its redirections. */
  ghost predicate Block(c: Cmd, ts: seq<Token>, d: Cmd, rs: seq<Redirection>, k: int)
    decreases |ts|, 0
  {
    && 0 < k < |ts| && IsSymbolToken(ts[0], '(') && IsSymbolToken(ts[k], ')')
    && Line(d, ts[1..k]) && Simple(ts[k + 1..], [], rs) && c == Wrap(d, rs)
  }

  lemma {:induction false} SimpleAppend(ts: seq<Token>, args: seq<Span>, rs: seq<Redirection>,
                                        ts': seq<Token>, args': seq<Span>, rs': seq<Redirection>)
    requires Simple(ts, args, rs) && Simple(ts', args', rs')
    ensures Simple(ts + ts', args + args', rs + rs')
    decreases |ts|
  {
    hide IsRedirection;
    if ts == [] {
      assert ts + ts' == ts' && args + args' == args' && rs + rs' == rs';
    } else if ts[0].kind == Word {
      SimpleAppend(ts[1..], args[1..], rs, ts', args', rs');
      assert (ts + ts')[1..] == ts[1..] + ts' && (args + args')[1..] == args[1..] + args';
    } else {
      SimpleAppend(ts[2..], args, rs[1..], ts', args', rs');
      assert (ts + ts')[2..] == ts[2..] + ts' && (rs + rs')[1..] == rs[1..] + rs';
    }
  }

  lemma {:induction false} SimpleWord(t: Token)
    requires t.kind == Word
    ensures Simple([t], [t.span], [])
  {
    assert [t][1..] == [] && [t.span][1..] == [];
  }

  lemma {:induction false} SimpleRedirection(op: Token, f: Token, r: Redirection)
    requires op.kind != Word && IsRedirection(op, f, r)
    ensures Simple([op, f], [], [r])
  {
    assert [op, f][2..] == [] && [r][1..] == [];
  }

  // ----- every word is in the command exactly once -----

  lemma {:induction false} SimpleWords(ts: seq<Token>, args: seq<Span>, rs: seq<Redirection>)
    requires Simple(ts, args, rs)
    ensures multiset(Words(ts)) == multiset(args) + Files(rs)
    decreases |ts|
  {
    hide Words, Files;
    if ts == [] {
      WordsNone();
      FilesNone();
    } else if ts[0].kind == Word {
      WordsFirst(ts);
      SimpleWords(ts[1..], args[1..], rs);
      assert args == [args[0]] + args[1..];
    } else {
      WordsFirst(ts);
      WordsFirst(ts[1..]);
      assert ts[1..][1..] == ts[2..];
      SimpleWords(ts[2..], args, rs[1..]);
      FilesFirst(rs);
    }
  }

  lemma {:induction false} WordsNone()
    ensures Words([]) == []
  {
  }

  lemma {:induction false} FilesNone()
    ensures Files([]) == multiset{}
  {
    assert FileSeq([]) == [];
  }

  lemma {:induction false} WordsFirst(ts: seq<Token>)
    requires ts != []
    ensures multiset(Words(ts)) == (if ts[0].kind == Word then multiset{ts[0].span} else multiset{}) + multiset(Words(ts[1..]))
  {
  }

  lemma {:induction false} FilesFirst(rs: seq<Redirection>)
    requires rs != []
    ensures Files(rs) == multiset{rs[0].file} + Files(rs[1..])
  {
    assert FileSeq(rs) == [rs[0].file] + FileSeq(rs[1..]);
  }

  /** The words before and after a symbol. */
  lemma {:induction false} WordsAround(ts: seq<Token>, k: nat)
    requires k < |ts| && ts[k].kind != Word
    ensures multiset(Words(ts)) == multiset(Words(ts[..k])) + multiset(Words(ts[k + 1..]))
  {
    assert ts == ts[..k] + ([ts[k]] + ts[k + 1..]);
    WordsAppend(ts[..k], [ts[k]] + ts[k + 1..]);
    assert ([ts[k]] + ts[k + 1..])[1..] == ts[k + 1..];
  }

  lemma {:induction false} LineWords(c: Cmd, ts: seq<Token>)
    requires Line(c, ts)
    ensures multiset(Words(ts)) == Spans(c)
    decreases |ts|, 4
  {
    hide Words;
    if Backs(c, ts) {
      BacksWords(c, ts);
    } else {
      var k :| 0 <= k < |ts| && IsSymbolToken(ts[k], ';') && Backs(c.left, ts[..k]) && Line(c.right, ts[k + 1..]);
      WordsAround(ts, k);
      BacksWords(c.left, ts[..k]);
      LineWords(c.right, ts[k + 1..]);
    }
  }

  lemma {:induction false} BacksWords(c: Cmd, ts: seq<Token>)
    requires Backs(c, ts)
    ensures multiset(Words(ts)) == Spans(c)
    decreases |ts|, 3
  {
    if Pipeline(c, ts) {
      PipelineWords(c, ts);
    } else {
      WordsAround(ts, |ts| - 1);
      BacksWords(c.cmd, ts[..|ts| - 1]);
    }
  }

  lemma {:induction false} PipelineWords(c: Cmd, ts: seq<Token>)
    requires Pipeline(c, ts)
    ensures multiset(Words(ts)) == Spans(c)
    decreases |ts|, 2
  {
    hide Words;
    if Unit(c, ts) {
      UnitWords(c, ts);
    } else {
      var k :| 0 <= k < |ts| && IsSymbolToken(ts[k], '|') && Unit(c.left, ts[..k]) && Pipeline(c.right, ts[k + 1..]);
      WordsAround(ts, k);
      UnitWords(c.left, ts[..k]);
      PipelineWords(c.right, ts[k + 1..]);
    }
  }

  lemma {:induction false} UnitWords(c: Cmd, ts: seq<Token>)
    requires Unit(c, ts)
    ensures multiset(Words(ts)) == Spans(c)
    decreases |ts|, 1
  {
    if d, rs, k :| Block(c, ts, d, rs, k) {
      BlockWords(c, ts, d, rs, k);
    } else {
      var args, rs :| Simple(ts, args, rs) && IsExec(c, args, rs);
      ExecWords(c, ts, args, rs);
    }
  }

  lemma {:induction false} ExecWords(c: Cmd, ts: seq<Token>, args: seq<Span>, rs: seq<Redirection>)
    requires Simple(ts, args, rs) && IsExec(c, args, rs)
    ensures multiset(Words(ts)) == Spans(c)
  {
    hide Words, Files, Simple, Wrap;
    SimpleWords(ts, args, rs);
    WrapSpans(Exec(args), rs);
  }

  lemma {:induction false} BlockWords(c: Cmd, ts: seq<Token>, d: Cmd, rs: seq<Redirection>, k: int)
    requires Block(c, ts, d, rs, k)
    ensures multiset(Words(ts)) == Spans(c)
    decreases |ts|, 0
  {
    LineWords(d, ts[1..k]);
    SimpleWords(ts[k + 1..], [], rs);
    WrapSpans(d, rs);
    WordsAround(ts, k);
    WordsAround(ts[..k], 0);
    assert ts[..k][1..] == ts[1..k];
    assert Words(ts[..k][..0]) == [];
  }

  // ----- the parser on tokens -----

  /** A command and the tokens after it, or Stuck where the parser panics. */
  datatype Rest = Stuck | Left(cmd: Cmd, ts: seq<Token>)

  datatype RedirsRest = NoFile | Taken(rs: seq<Redirection>, ts: seq<Token>)

  /** The next token is one of the symbols toks. */
  ghost predicate Next(ts: seq<Token>, toks: string) {
    ts != [] && ts[0].kind.Symbol? && ts[0].kind.c in toks
  }

  ghost predicate NextRedir(ts: seq<Token>) {
    ts != [] && ts[0].kind in {Symbol('<'), Symbol('>'), Append}
  }

  function ToRedirection(op: Token, f: Token): Redirection {
    if op.kind == Symbol('<') then Redirection(f.span, false, 0) else Redirection(f.span, true, 1)
  }

  ghost function TakeRedirs(ts: seq<Token>): (r: RedirsRest)
    ensures r.Taken? ==> |r.ts| <= |ts|
  {
    if !NextRedir(ts) then Taken([], ts)
    else if |ts| < 2 || ts[1].kind != Word then NoFile
    else Prepended([ToRedirection(ts[0], ts[1])], TakeRedirs(ts[2..]))
  }

  ghost function Prepended(rs: seq<Redirection>, r: RedirsRest): RedirsRest {
    if r.NoFile? then NoFile else Taken(rs + r.rs, r.ts)
  }

  ghost function TakeSimple(ts: seq<Token>, args: seq<Span>, rs: seq<Redirection>): (l: Rest)
    ensures l.Left? ==> |l.ts| <= |ts|
    decreases |ts|
  {
    var r := TakeRedirs(ts);
    if r.NoFile? then Stuck
    else TakeArgs(r.ts, args, rs + r.rs)
  }

  ghost function TakeArgs(ts: seq<Token>, args: seq<Span>, rs: seq<Redirection>): (l: Rest)
    ensures l.Left? ==> |l.ts| <= |ts|
    decreases |ts|, 0
  {
    if ts == [] || Next(ts, "|)&;") then Left(Wrap(Exec(args), rs), ts)
    else if ts[0].kind != Word || |args| + 1 >= MAXARGS then Stuck
    else TakeSimple(ts[1..], args + [ts[0].span], rs)
  }

  ghost function TakeBlock(ts: seq<Token>): (l: Rest)
    ensures l.Left? ==> |l.ts| <= |ts|
    decreases |ts|, 0
  {
    if !Next(ts, "(") then Stuck
    else
      var l := TakeLine(ts[1..]);
      if l.Stuck? || !Next(l.ts, ")") then Stuck
      else
        var r := TakeRedirs(l.ts[1..]);
        if r.NoFile? then Stuck else Left(Wrap(l.cmd, r.rs), r.ts)
  }

  ghost function TakeUnit(ts: seq<Token>): (l: Rest)
    ensures l.Left? ==> |l.ts| <= |ts|
    decreases |ts|, 1
  {
    if Next(ts, "(") then TakeBlock(ts) else TakeSimple(ts, [], [])
  }

  ghost function TakePipe(ts: seq<Token>): (l: Rest)
    ensures l.Left? ==> |l.ts| <= |ts|
    decreases |ts|, 2
  {
    var l := TakeUnit(ts);
    if l.Stuck? || !Next(l.ts, "|") then l
    else
      var m := TakePipe(l.ts[1..]);
      if m.Stuck? then Stuck else Left(Pipe(l.cmd, m.cmd), m.ts)
  }

  ghost function TakeBacks(c: Cmd, ts: seq<Token>): (l: Rest)
    ensures l.Left? && |l.ts| <= |ts| && !Next(l.ts, "&")
    decreases |ts|
  {
    if Next(ts, "&") then TakeBacks(Back(c), ts[1..]) else Left(c, ts)
  }

  ghost function TakeLine(ts: seq<Token>): (l: Rest)
    ensures l.Left? ==> |l.ts| <= |ts|
    decreases |ts|, 3
  {
    var l := TakePipe(ts);
    if l.Stuck? then Stuck
    else
      var m := TakeBacks(l.cmd, l.ts);
      if !Next(m.ts, ";") then m
      else
        var n := TakeLine(m.ts[1..]);
        if n.Stuck? then Stuck else Left(List(m.cmd, n.cmd), n.ts)
  }

  // ----- the parser takes only what the grammar derives -----

  lemma {:induction false} RedirsSound(ts: seq<Token>) returns (us: seq<Token>)
    requires TakeRedirs(ts).Taken?
    ensures ts == us + TakeRedirs(ts).ts && Simple(us, [], TakeRedirs(ts).rs)
    decreases |ts|
  {
    hide Simple;
    SimpleNothing();
    us := [];
    if NextRedir(ts) {
      var vs := RedirsSound(ts[2..]);
      var r, none: seq<Span> := ToRedirection(ts[0], ts[1]), [];
      SimpleRedirection(ts[0], ts[1], r);
      SimpleAppend([ts[0], ts[1]], none, [r], vs, none, TakeRedirs(ts[2..]).rs);
      assert none + none == none && ts == [ts[0], ts[1]] + ts[2..];
      us := [ts[0], ts[1]] + vs;
    }
  }

  lemma {:induction false} SimpleSound(ts: seq<Token>, args: seq<Span>, rs: seq<Redirection>)
    returns (us: seq<Token>, more: seq<Span>, qs: seq<Redirection>)
    requires TakeSimple(ts, args, rs).Left? && |args| < MAXARGS
    ensures ts == us + TakeSimple(ts, args, rs).ts && Simple(us, more, qs)
    ensures TakeSimple(ts, args, rs).cmd == Wrap(Exec(args + more), rs + qs) && |args + more| < MAXARGS
    decreases |ts|
  {
    hide Simple, Wrap, TakeRedirs;
    var r := TakeRedirs(ts);
    us := RedirsSound(ts);
    more, qs := [], r.rs;
    if r.ts == [] || Next(r.ts, "|)&;") {
      assert args + [] == args;
    } else {
      var t := r.ts[0];
      var vs, more', qs' := SimpleSound(r.ts[1..], args + [t.span], rs + r.rs);
      SimpleWord(t);
      SimpleAppend([t], [t.span], [], vs, more', qs');
      SimpleAppend(us, [], r.rs, [t] + vs, [t.span] + more', [] + qs');
      assert [] + qs' == qs' && [] + ([t.span] + more') == [t.span] + more';
      assert rs + r.rs + qs' == rs + (r.rs + qs') && args + [t.span] + more' == args + ([t.span] + more');
      assert r.ts == [t] + r.ts[1..];
      us, more, qs := us + ([t] + vs), [t.span] + more', r.rs + qs';
    }
  }

  lemma {:induction false} UnitSound(ts: seq<Token>) returns (us: seq<Token>)
    requires TakeUnit(ts).Left?
    ensures ts == us + TakeUnit(ts).ts && Unit(TakeUnit(ts).cmd, us)
    decreases |ts|, 1
  {
    hide Unit, Simple, Line, Wrap, TakeRedirs, TakeSimple, TakeLine;
    if Next(ts, "(") {
      var l := TakeLine(ts[1..]);
      var vs := LineSound(ts[1..]);
      var ws := RedirsSound(l.ts[1..]);
      us := [] + [ts[0]] + vs + [l.ts[0]] + ws;
      UnitBlock(l.cmd, vs, ts[0], l.ts[0], TakeRedirs(l.ts[1..]).rs, ws);
      assert ts == [ts[0]] + ts[1..] && l.ts == [l.ts[0]] + l.ts[1..];
    } else {
      var more, qs;
      us, more, qs := SimpleSound(ts, [], []);
      assert [] + more == more && [] + qs == qs;
      UnitSimple(us, more, qs);
    }
  }

  lemma {:induction false} PipeSound(ts: seq<Token>) returns (us: seq<Token>)
    requires TakePipe(ts).Left?
    ensures ts == us + TakePipe(ts).ts && Pipeline(TakePipe(ts).cmd, us)
    decreases |ts|, 2
  {
    hide Unit, Pipeline, TakeUnit;
    var l := TakeUnit(ts);
    us := UnitSound(ts);
    if Next(l.ts, "|") {
      var vs := PipeSound(l.ts[1..]);
      PipelineMore(l.cmd, us, l.ts[0], TakePipe(l.ts[1..]).cmd, vs);
      assert l.ts == [l.ts[0]] + l.ts[1..];
      us := us + [l.ts[0]] + vs;
    } else {
      PipelineUnit(l.cmd, us);
    }
  }

  lemma {:induction false} BacksSound(c: Cmd, us: seq<Token>, ts: seq<Token>) returns (vs: seq<Token>)
    requires Backs(c, us)
    ensures us + ts == vs + TakeBacks(c, ts).ts && Backs(TakeBacks(c, ts).cmd, vs)
    decreases |ts|
  {
    hide Backs;
    vs := us;
    if Next(ts, "&") {
      BacksMore(c, us, ts[0]);
      vs := BacksSound(Back(c), us + [ts[0]], ts[1..]);
      assert us + [ts[0]] + ts[1..] == us + ts;
    }
  }

  lemma {:induction false} LineSound(ts: seq<Token>) returns (us: seq<Token>)
    requires TakeLine(ts).Left?
    ensures ts == us + TakeLine(ts).ts && Line(TakeLine(ts).cmd, us)
    decreases |ts|, 3
  {
    hide Pipeline, Backs, Line, TakePipe, TakeBacks;
    var l := TakePipe(ts);
    us := PipeSound(ts);
    BacksPipeline(l.cmd, us);
    us := BacksSound(l.cmd, us, l.ts);
    var m := TakeBacks(l.cmd, l.ts);
    if Next(m.ts, ";") {
      var vs := LineSound(m.ts[1..]);
      LineMore(m.cmd, us, m.ts[0], TakeLine(m.ts[1..]).cmd, vs);
      assert m.ts == [m.ts[0]] + m.ts[1..];
      us := us + [m.ts[0]] + vs;
    } else {
      LineBacks(m.cmd, us);
    }
  }

  lemma {:induction false} SimpleNothing()
    ensures Simple([], [], [])
  {
  }

  lemma {:induction false} BacksPipeline(c: Cmd, ts: seq<Token>)
    requires Pipeline(c, ts)
    ensures Backs(c, ts)
  {
  }

  lemma {:induction false} BacksMore(c: Cmd, ts: seq<Token>, t: Token)
    requires Backs(c, ts) && IsSymbolToken(t, '&')
    ensures Backs(Back(c), ts + [t])
  {
    assert (ts + [t])[..|ts|] == ts;
  }

  lemma {:induction false} LineBacks(c: Cmd, ts: seq<Token>)
    requires Backs(c, ts)
    ensures Line(c, ts)
  {
  }

  lemma {:induction false} LineMore(c: Cmd, ts: seq<Token>, t: Token, d: Cmd, us: seq<Token>)
    requires Backs(c, ts) && IsSymbolToken(t, ';') && Line(d, us)
    ensures Line(List(c, d), ts + [t] + us)
  {
    var all := ts + [t] + us;
    hide Backs;
    assert all[..|ts|] == ts && all[|ts| + 1..] == us && all[|ts|] == t;
  }

  lemma {:induction false} PipelineUnit(c: Cmd, ts: seq<Token>)
    requires Unit(c, ts)
    ensures Pipeline(c, ts)
  {
  }

  lemma {:induction false} PipelineMore(c: Cmd, ts: seq<Token>, t: Token, d: Cmd, us: seq<Token>)
    requires Unit(c, ts) && IsSymbolToken(t, '|') && Pipeline(d, us)
    ensures Pipeline(Pipe(c, d), ts + [t] + us)
  {
    var all := ts + [t] + us;
    hide Unit;
    assert all[..|ts|] == ts && all[|ts| + 1..] == us && all[|ts|] == t;
  }

  lemma {:induction false} UnitBlock(d: Cmd, us: seq<Token>, open: Token, close: Token, rs: seq<Redirection>, vs: seq<Token>)
    requires Line(d, us) && IsSymbolToken(open, '(') && IsSymbolToken(close, ')') && Simple(vs, [], rs)
    ensures Unit(Wrap(d, rs), [] + [open] + us + [close] + vs)
  {
    var ts, k := [] + [open] + us + [close] + vs, |us| + 1;
    hide Line, Simple, Wrap;
    assert ts[1..k] == us && ts[k + 1..] == vs && ts[0] == open && ts[k] == close;
    assert Block(Wrap(d, rs), ts, d, rs, k);
  }

  lemma {:induction false} UnitSimple(ts: seq<Token>, args: seq<Span>, rs: seq<Redirection>)
    requires Simple(ts, args, rs) && |args| < MAXARGS
    ensures Unit(Wrap(Exec(args), rs), ts)
  {
    assert IsExec(Wrap(Exec(args), rs), args, rs);
  }

  // ----- the parser takes all that the grammar derives -----

  /** No token follows, or one of the symbols toks. */
  ghost predicate Stops(ts: seq<Token>, toks: string) {
    ts == [] || Next(ts, toks)
  }

  lemma {:induction false} RedirsComplete(us: seq<Token>, rs: seq<Redirection>, rest: seq<Token>)
    requires Simple(us, [], rs) && !NextRedir(rest)
    ensures TakeRedirs(us + rest) == Taken(rs, rest)
    decreases |us|
  {
    if us == [] {
      assert us + rest == rest;
    } else {
      RedirsComplete(us[2..], rs[1..], rest);
      RedirsFirst(us, rs[0], rest);
      assert [rs[0]] + rs[1..] == rs;
    }
  }

  lemma {:induction false} RedirsFirst(us: seq<Token>, r: Redirection, rest: seq<Token>)
    requires |us| >= 2 && us[0].kind != Word && IsRedirection(us[0], us[1], r)
    ensures TakeRedirs(us + rest) == Prepended([r], TakeRedirs(us[2..] + rest))
  {
    var all := us + rest;
    assert all[0] == us[0] && all[1] == us[1] && all[2..] == us[2..] + rest;
    assert ToRedirection(us[0], us[1]) == r;
  }

  lemma {:induction false} SimpleComplete(us: seq<Token>, more: seq<Span>, qs: seq<Redirection>, rest: seq<Token>,
                                          args: seq<Span>, rs: seq<Redirection>)
    requires Simple(us, more, qs) && Stops(rest, "|)&;") && |args| + |more| < MAXARGS
    ensures TakeSimple(us + rest, args, rs) == Left(Wrap(Exec(args + more), rs + qs), rest)
    decreases |us|
  {
    hide Wrap, IsRedirection, TakeSimple, Stops;
    if us == [] {
      SimpleStops(rest, args, rs);
      assert us + rest == rest && args + more == args && rs + qs == rs;
    } else if us[0].kind == Word {
      SimpleComplete(us[1..], more[1..], qs, rest, args + [us[0].span], rs);
      WordStep(us, rest, args, rs);
      assert args + [us[0].span] + more[1..] == args + more;
    } else {
      SimpleComplete(us[2..], more, qs[1..], rest, args, rs + [qs[0]]);
      RedirStep(us, qs[0], rest, args, rs);
      assert rs + [qs[0]] + qs[1..] == rs + qs;
    }
  }

  lemma {:induction false} SimpleStops(rest: seq<Token>, args: seq<Span>, rs: seq<Redirection>)
    requires Stops(rest, "|)&;")
    ensures TakeSimple(rest, args, rs) == Left(Wrap(Exec(args), rs), rest)
  {
    hide Wrap, TakeRedirs;
    RedirsUnfold(rest);
    assert rs + [] == rs;
  }

  lemma {:induction false} WordStep(us: seq<Token>, rest: seq<Token>, args: seq<Span>, rs: seq<Redirection>)
    requires us != [] && us[0].kind == Word && |args| + 1 < MAXARGS
    ensures TakeSimple(us + rest, args, rs) == TakeSimple(us[1..] + rest, args + [us[0].span], rs)
  {
    hide Wrap, TakeRedirs;
    var all := us + rest;
    RedirsUnfold(all);
    assert all[0] == us[0] && all[1..] == us[1..] + rest && rs + [] == rs;
  }

  lemma {:induction false} RedirStep(us: seq<Token>, r: Redirection, rest: seq<Token>, args: seq<Span>, rs: seq<Redirection>)
    requires |us| >= 2 && us[0].kind != Word && IsRedirection(us[0], us[1], r)
    ensures TakeSimple(us + rest, args, rs) == TakeSimple(us[2..] + rest, args, rs + [r])
  {
    hide TakeArgs, TakeRedirs;
    RedirsFirst(us, r, rest);
    var q := TakeRedirs(us[2..] + rest);
    if q.Taken? {
      assert rs + [r] + q.rs == rs + ([r] + q.rs);
    }
  }

  lemma {:induction false} UnitComplete(c: Cmd, us: seq<Token>, rest: seq<Token>)
    requires Unit(c, us) && Stops(rest, "|)&;")
    ensures TakeUnit(us + rest) == Left(c, rest)
    decreases |us|, 1
  {
    hide Line, Simple, Wrap, TakeLine, TakeSimple, TakeRedirs;
    if d, rs, k :| Block(c, us, d, rs, k) {
      BlockComplete(c, us, d, rs, k, rest);
    } else {
      var args, rs :| Simple(us, args, rs) && IsExec(c, args, rs);
      SimpleComplete(us, args, rs, rest, [], []);
      assert [] + args == args && [] + rs == rs;
      NoParenthesis(us, args, rs, rest);
    }
  }

  lemma {:induction false} NoParenthesis(us: seq<Token>, args: seq<Span>, rs: seq<Redirection>, rest: seq<Token>)
    requires Simple(us, args, rs) && Stops(rest, "|)&;")
    ensures !Next(us + rest, "(")
  {
    assert us == [] ==> us + rest == rest;
  }

  lemma {:induction false} BlockComplete(c: Cmd, us: seq<Token>, d: Cmd, rs: seq<Redirection>, k: int, rest: seq<Token>)
    requires Block(c, us, d, rs, k) && Stops(rest, "|)&;")
    ensures Next(us + rest, "(") && TakeBlock(us + rest) == Left(c, rest)
    decreases |us|, 0
  {
    hide Line, Simple, Wrap, TakeLine, TakeRedirs;
    var all := us + rest;
    assert all[1..] == us[1..k] + (us[k..] + rest) && (us[k..] + rest)[1..] == us[k + 1..] + rest;
    LineComplete(d, us[1..k], us[k..] + rest);
    RedirsComplete(us[k + 1..], rs, rest);
  }

  lemma {:induction false} CutAt(us: seq<Token>, k: nat, rest: seq<Token>)
    requires k < |us|
    ensures us + rest == us[..k] + (us[k..] + rest) && us[k..] + rest != []
    ensures (us[k..] + rest)[0] == us[k] && (us[k..] + rest)[1..] == us[k + 1..] + rest
  {
    var t := us[k..] + rest;
    assert us == us[..k] + us[k..];
    assert us[k..] == [us[k]] + us[k + 1..];
    assert t == [us[k]] + (us[k + 1..] + rest);
  }

  lemma {:induction false} PipeComplete(c: Cmd, us: seq<Token>, rest: seq<Token>)
    requires Pipeline(c, us) && Stops(rest, ")&;")
    ensures TakePipe(us + rest) == Left(c, rest)
    decreases |us|, 2
  {
    hide Unit, TakeUnit;
    if Unit(c, us) {
      UnitComplete(c, us, rest);
    } else {
      var k :| 0 <= k < |us| && IsSymbolToken(us[k], '|') && Unit(c.left, us[..k]) && Pipeline(c.right, us[k + 1..]);
      CutAt(us, k, rest);
      UnitComplete(c.left, us[..k], us[k..] + rest);
      PipeComplete(c.right, us[k + 1..], rest);
    }
  }

  /** The first pipeline and all the & after it. */
  ghost function TakeHead(ts: seq<Token>): Rest {
    var l := TakePipe(ts);
    if l.Stuck? then Stuck else TakeBacks(l.cmd, l.ts)
  }

  lemma {:induction false} BacksComplete(c: Cmd, us: seq<Token>, rest: seq<Token>)
    requires Backs(c, us) && Stops(rest, ")&;")
    ensures TakeHead(us + rest) == TakeBacks(c, rest)
    decreases |us|, 3
  {
    hide Pipeline, TakePipe;
    if Pipeline(c, us) {
      PipeComplete(c, us, rest);
    } else {
      var n := |us| - 1;
      assert us + rest == us[..n] + ([us[n]] + rest) && ([us[n]] + rest)[1..] == rest;
      BacksComplete(c.cmd, us[..n], [us[n]] + rest);
    }
  }

  lemma {:induction false} LineComplete(c: Cmd, us: seq<Token>, rest: seq<Token>)
    requires Line(c, us) && Stops(rest, ")")
    ensures TakeLine(us + rest) == Left(c, rest)
    decreases |us|, 4
  {
    hide Backs, TakePipe;
    if Backs(c, us) {
      BacksComplete(c, us, rest);
    } else {
      var k :| 0 <= k < |us| && IsSymbolToken(us[k], ';') && Backs(c.left, us[..k]) && Line(c.right, us[k + 1..]);
      CutAt(us, k, rest);
      BacksComplete(c.left, us[..k], us[k..] + rest);
      LineComplete(c.right, us[k + 1..], rest);
    }
  }

  /** The parser takes a line whole exactly if the grammar derives it, and then to the one command it derives. */
  lemma {:induction false} ParserIsGrammar(c: Cmd, ts: seq<Token>)
    ensures TakeLine(ts) == Left(c, []) <==> Line(c, ts)
  {
    hide TakeLine, Line;
    if TakeLine(ts) == Left(c, []) {
      var us := LineSound(ts);
      assert us + [] == us;
    }
    if Line(c, ts) {
      LineComplete(c, ts, []);
      assert ts + [] == ts;
    }
  }

  lemma {:induction false} Unambiguous(c: Cmd, d: Cmd, ts: seq<Token>)
    requires Line(c, ts) && Line(d, ts)
    ensures c == d
  {
    hide TakeLine, Line;
    ParserIsGrammar(c, ts);
    ParserIsGrammar(d, ts);
  }

  // ----- the parser on the line -----

  datatype Parse = Panic | Parsed(cmd: Cmd, pos: nat)

  /** The parser on the line from p does what the parser on its tokens does. */
  ghost predicate Agrees(s: string, p: nat, r: Parse, l: Rest) {
    if r.Panic? then l.Stuck? else l.Left? && p <= r.pos <= |s| && r.cmd == l.cmd && Tokens(s, r.pos) == l.ts
  }

  /** The operator < reads the file as descriptor 0, > and >> write it as descriptor 1. */
  ghost predicate RedirReads(op: Token, f: Token, r: Redirection) {
    && f.kind == Word && r.file == f.span
    && (if op.kind == Symbol('<') then r.fd == 0 && !r.write else op.kind in {Symbol('>'), Append} && r.fd == 1 && r.write)
  }

  /** Redirection i is tokens 2i and 2i + 1. */
  ghost predicate RedirsRead(ts: seq<Token>, rs: seq<Redirection>) {
    2 * |rs| <= |ts| && forall i :: 0 <= i < |rs| ==> RedirReads(ts[2 * i], ts[2 * i + 1], rs[i])
  }

  lemma {:induction false} RedirsAre(ts: seq<Token>)
    requires TakeRedirs(ts).Taken?
    ensures RedirsRead(ts, TakeRedirs(ts).rs)
    decreases |ts|
  {
    if NextRedir(ts) {
      RedirsAre(ts[2..]);
      var rs, later := TakeRedirs(ts).rs, TakeRedirs(ts[2..]).rs;
      assert rs == [ToRedirection(ts[0], ts[1])] + later && RedirReads(ts[0], ts[1], rs[0]);
      hide RedirReads, TakeRedirs;
      forall i | 0 <= i < |rs| ensures RedirReads(ts[2 * i], ts[2 * i + 1], rs[i]) {
        if i > 0 {
          assert RedirReads(ts[2..][2 * (i - 1)], ts[2..][2 * (i - 1) + 1], later[i - 1]);
        }
      }
    }
  }

  /** Parses redirections. */
  method ParseRedirs(s: string, ps: nat) returns (ok: bool, rs: seq<Redirection>, pos: nat)
    requires ps <= |s|
    ensures ok <==> TakeRedirs(Tokens(s, ps)).Taken?
    ensures ok ==> ps <= pos <= |s| && TakeRedirs(Tokens(s, ps)) == Taken(rs, Tokens(s, pos))
    ensures ok ==> RedirsRead(Tokens(s, ps), rs)
  {
    hide SkipSpace, TokenAt, Tokens, TakeRedirs;
    rs := [];
    var found;
    found, pos := Peek(s, ps, "<>");
    while found
      invariant ps <= pos <= |s| && (found <==> NextRedir(Tokens(s, pos)))
      invariant TakeRedirs(Tokens(s, ps)) == Prepended(rs, TakeRedirs(Tokens(s, pos)))
      decreases |s| - pos
    {
      RedirsUnfold(Tokens(s, pos));
      var tok, f;
      tok, pos := GetToken(s, pos);
      f, pos := GetToken(s, pos);
      if f.kind != Word {
        return false, rs, pos;
      }
      ghost var r := ToRedirection(tok, f);
      ghost var later := TakeRedirs(Tokens(s, pos));
      assert later.Taken? ==> rs + ([r] + later.rs) == rs + [r] + later.rs;
      rs := rs + [ToRedirection(tok, f)];
      found, pos := Peek(s, pos, "<>");
    }
    RedirsUnfold(Tokens(s, pos));
    assert rs + [] == rs;
    RedirsAre(Tokens(s, ps));
    ok := true;
  }

  lemma {:induction false} RedirsUnfold(ts: seq<Token>)
    ensures !NextRedir(ts) ==> TakeRedirs(ts) == Taken([], ts)
    ensures NextRedir(ts) && (|ts| < 2 || ts[1].kind != Word) ==> TakeRedirs(ts) == NoFile
    ensures NextRedir(ts) && |ts| >= 2 && ts[1].kind == Word ==>
              TakeRedirs(ts) == Prepended([ToRedirection(ts[0], ts[1])], TakeRedirs(ts[1..][1..]))
  {
    if |ts| >= 2 {
      assert ts[1..][1..] == ts[2..];
    }
  }

  method ParseLine(s: string, ps: nat) returns (r: Parse)
    requires ps <= |s|
    ensures Agrees(s, ps, r, TakeLine(Tokens(s, ps)))
    decreases |s| - ps, 3
  {
    hide SkipSpace, TokenAt, Tokens, TakePipe;
    r := ParsePipe(s, ps);
    if r.Panic? {
      return;
    }
    var cmd, pos, found, tok := r.cmd, r.pos, true, Token(End, Span(0, 0));
    ghost var m := TakeBacks(cmd, Tokens(s, pos));
    found, pos := Peek(s, pos, "&");
    while found
      invariant ps <= pos <= |s| && (found <==> Next(Tokens(s, pos), "&")) && TakeBacks(cmd, Tokens(s, pos)) == m
      decreases |s| - pos
    {
      tok, pos := GetToken(s, pos);
      cmd := Back(cmd);
      found, pos := Peek(s, pos, "&");
    }
    found, pos := Peek(s, pos, ";");
    if found {
      tok, pos := GetToken(s, pos);
      r := ParseLine(s, pos);
      if r.Parsed? {
        r := Parsed(List(cmd, r.cmd), r.pos);
      }
    } else {
      r := Parsed(cmd, pos);
    }
  }

  method ParsePipe(s: string, ps: nat) returns (r: Parse)
    requires ps <= |s|
    ensures Agrees(s, ps, r, TakePipe(Tokens(s, ps)))
    decreases |s| - ps, 2
  {
    hide SkipSpace, TokenAt, Tokens, TakeUnit;
    r := ParseExec(s, ps);
    if r.Panic? {
      return;
    }
    var cmd := r.cmd;
    var found, pos := Peek(s, r.pos, "|");
    if found {
      var tok;
      tok, pos := GetToken(s, pos);
      r := ParsePipe(s, pos);
      if r.Parsed? {
        r := Parsed(Pipe(cmd, r.cmd), r.pos);
      }
    } else {
      r := Parsed(cmd, pos);
    }
  }

  /** A parenthesised line and its redirections. */
  method ParseBlock(s: string, ps: nat) returns (r: Parse)
    requires ps <= |s|
    ensures Agrees(s, ps, r, TakeBlock(Tokens(s, ps)))
    decreases |s| - ps, 0
  {
    hide SkipSpace, TokenAt, Tokens, TakeLine, TakeRedirs;
    var found, pos := Peek(s, ps, "(");
    if !found {
      return Panic;
    }
    var tok, ok, rs;
    tok, pos := GetToken(s, pos);
    r := ParseLine(s, pos);
    if r.Panic? {
      return;
    }
    var cmd := r.cmd;
    found, pos := Peek(s, r.pos, ")");
    if !found {
      return Panic;
    }
    tok, pos := GetToken(s, pos);
    ok, rs, pos := ParseRedirs(s, pos);
    if !ok {
      return Panic;
    }
    r := Parsed(Wrap(cmd, rs), pos);
  }

  /** A simple command: words and redirections in any order, fewer than ten words. */
  method ParseExec(s: string, ps: nat) returns (r: Parse)
    requires ps <= |s|
    ensures Agrees(s, ps, r, TakeUnit(Tokens(s, ps)))
    decreases |s| - ps, 1
  {
    hide SkipSpace, TokenAt, Tokens, TakeBlock, TakeRedirs, Wrap;
    var found, pos := Peek(s, ps, "(");
    if found {
      r := ParseBlock(s, pos);
      return;
    }
    var args, ok, rs := [], true, [];
    ok, rs, pos := ParseRedirs(s, pos);
    if !ok {
      return Panic;
    }
    assert [] + rs == rs;
    found, pos := Peek(s, pos, "|)&;");
    while !found
      invariant ps <= pos <= |s| && (found <==> Next(Tokens(s, pos), "|)&;"))
      invariant TakeUnit(Tokens(s, ps)) == TakeArgs(Tokens(s, pos), args, rs)
      decreases |s| - pos
    {
      var t, more;
      t, pos := GetToken(s, pos);
      if t.kind == End {
        break;
      }
      if t.kind != Word {
        return Panic;
      }
      args := args + [t.span];
      if |args| >= MAXARGS {
        return Panic;
      }
      ok, more, pos := ParseRedirs(s, pos);
      if !ok {
        return Panic;
      }
      rs := rs + more;
      found, pos := Peek(s, pos, "|)&;");
    }
    r := Parsed(Wrap(Exec(args), rs), pos);
  }

  // ----- the whole line -----

  /** A span that is one whole word of the line. */
  ghost predicate WordSpan(s: string, w: Span) {
    w.start < w.end <= |s| && (forall i :: w.start <= i < w.end ==> IsWord(s[i])) && (w.end < |s| ==> !IsWord(s[w.end]))
  }

  lemma {:induction false} WordsAreWords(s: string, p: nat, w: Span)
    requires p <= |s| && w in Words(Tokens(s, p))
    ensures WordSpan(s, w)
    decreases |s| - p
  {
    var t := TokenAt(s, p);
    assert Tokens(s, p)[1..] == Tokens(s, t.span.end);
    if t.kind == Word && w == t.span {
    } else {
      WordsAreWords(s, t.span.end, w);
    }
  }

  /** The C string at index q of a buffer. */
  ghost function CString(b: seq<char>, q: nat): seq<char>
    requires q <= |b|
    decreases |b| - q
  {
    if q == |b| || b[q] == NUL then [] else [b[q]] + CString(b, q + 1)
  }

  lemma {:induction false} CStringIs(b: seq<char>, s: string, q: nat, e: nat)
    requires q <= e < |b| && e <= |s| && b[e] == NUL && forall i :: q <= i < e ==> b[i] == s[i] != NUL
    ensures CString(b, q) == s[q..e]
    decreases e - q
  {
    if q < e {
      CStringIs(b, s, q + 1, e);
    }
  }

  /** The buffer b after a NUL has been stored at the end of each word of ws. */
  ghost predicate Terminated(b: seq<char>, b': seq<char>, ws: multiset<Span>) {
    && |b'| == |b|
    && (forall w :: w in ws ==> w.end < |b| && b'[w.end] == NUL)
    && forall i :: 0 <= i < |b| ==> b'[i] == b[i] || (b'[i] == NUL && exists w :: w in ws && w.end == i)
  }

  lemma {:induction false} TerminatedTrans(b: seq<char>, c: seq<char>, d: seq<char>, ws: multiset<Span>, xs: multiset<Span>)
    requires Terminated(b, c, ws) && Terminated(c, d, xs)
    ensures Terminated(b, d, ws + xs)
  {
    forall i | 0 <= i < |b| && d[i] != b[i] ensures d[i] == NUL && exists w :: w in ws + xs && w.end == i {
      if c[i] != b[i] {
        var w :| w in ws && w.end == i;
        assert w in ws + xs;
      } else {
        var w :| w in xs && w.end == i;
        assert w in ws + xs;
      }
    }
  }

  /** No NUL lands inside a word, so each word reads as before and ends where it ended. */
  lemma {:induction false} WordKept(s: string, b: seq<char>, b': seq<char>, ws: multiset<Span>, w: Span)
    requires b == s + [NUL] && NUL !in s && Terminated(b, b', ws) && w in ws && forall x :: x in ws ==> WordSpan(s, x)
    ensures w.start < w.end <= |s| && CString(b', w.start) == s[w.start..w.end]
  {
    forall i | w.start <= i < w.end ensures b'[i] == s[i] != NUL {
      assert s[i] in s;
      assert forall x :: x in ws ==> x.end != i;
    }
    CStringIs(b', s, w.start, w.end);
  }

  /** Stores a NUL at the end of every word of the command. */
  method NulTerminate(c: Cmd, b: array<char>)
    requires forall w :: w in Spans(c) ==> w.end < b.Length
    modifies b
    ensures Terminated(old(b[..]), b[..], Spans(c))
    decreases c
  {
    hide Terminated;
    ghost var b0 := b[..];
    match c {
      case Exec(args) =>
        TerminatedNone(b0);
        var i := 0;
        while i < |args|
          invariant 0 <= i <= |args| && Terminated(b0, b[..], multiset(args[..i]))
        {
          ghost var b1 := b[..];
          assert args[i] in multiset(args);
          b[args[i].end] := NUL;
          TerminatedOne(b1, b[..], args[i]);
          TerminatedTrans(b0, b1, b[..], multiset(args[..i]), multiset{args[i]});
          assert args[..i + 1] == args[..i] + [args[i]];
          i := i + 1;
        }
        assert args[..|args|] == args;
      case Redir(d, to) =>
        NulTerminate(d, b);
        ghost var b1 := b[..];
        assert to.file in Spans(c);
        b[to.file.end] := NUL;
        TerminatedOne(b1, b[..], to.file);
        TerminatedTrans(b0, b1, b[..], Spans(d), multiset{to.file});
      case Pipe(l, r) =>
        NulTerminate(l, b);
        ghost var b1 := b[..];
        NulTerminate(r, b);
        TerminatedTrans(b0, b1, b[..], Spans(l), Spans(r));
      case List(l, r) =>
        NulTerminate(l, b);
        ghost var b1 := b[..];
        NulTerminate(r, b);
        TerminatedTrans(b0, b1, b[..], Spans(l), Spans(r));
      case Back(d) =>
        NulTerminate(d, b);
    }
  }

  lemma {:induction false} TerminatedNone(b: seq<char>)
    ensures Terminated(b, b, multiset{})
  {
  }

  lemma {:induction false} TerminatedOne(b: seq<char>, b': seq<char>, w: Span)
    requires w.end < |b| && b' == b[w.end := NUL]
    ensures Terminated(b, b', multiset{w})
  {
  }

  /**
   Parses a whole line.  It returns a command exactly if the grammar derives one from the
   tokens of the line, and then that one; after the NULs are stored the C string at every
   word of the command is that word, and every word of the line is in it once.
   */
  method ParseCmd(s: string, b: array<char>) returns (r: Parse)
    requires NUL !in s && b[..] == s + [NUL]
    modifies b
    ensures forall c :: Line(c, Tokens(s, 0)) <==> r.Parsed? && r.cmd == c
    ensures r.Parsed? ==> multiset(Words(Tokens(s, 0))) == Spans(r.cmd)
    ensures r.Parsed? ==> forall w :: w in Spans(r.cmd) ==>
              w.start < w.end <= |s| < b.Length && CString(b[..], w.start) == s[w.start..w.end]
    ensures r.Panic? ==> b[..] == old(b[..])
  {
    hide Tokens, Words, Terminated, CString, Line, TakeLine;
    ghost var ts := Tokens(s, 0);
    forall c ensures TakeLine(ts) == Left(c, []) <==> Line(c, ts) {
      ParserIsGrammar(c, ts);
    }
    r := ParseLine(s, 0);
    if r.Panic? {
      return;
    }
    var found, pos := Peek(s, r.pos, "");
    NoTokens(s, pos);
    if pos != |s| {
      return Panic;
    }
    LineWords(r.cmd, ts);
    ghost var ws := Spans(r.cmd);
    forall w | w in ws ensures WordSpan(s, w) {
      assert w in multiset(Words(ts));
      WordsAreWords(s, 0, w);
    }
    ghost var b0 := b[..];
    NulTerminate(r.cmd, b);
    forall w | w in ws ensures w.start < w.end <= |s| && CString(b[..], w.start) == s[w.start..w.end] {
      WordKept(s, b0, b[..], ws, w);
    }
  }

  lemma {:induction false} NoTokens(s: string, p: nat)
    requires p <= |s|
    ensures Tokens(s, p) == [] <==> SkipSpace(s, p) == |s|
  {
  }
}
