/** Key patterns: the small language in which `permit` and `except`
    name the keys they act on.

    A pattern string is read character by character.  `*` stands for any
    run of characters (possibly empty), `(a,b,...)` for exactly one of the
    comma-separated options, and every other character for itself, so
    characters that a regular-expression engine would treat specially
    (`.`, `+`, `?`, `[` ...) match literally.  Options of a group are
    themselves globs: they may hold `*` but not another group.  A pattern
    always matches the WHOLE key. */
module Patterns {

  datatype GlobTok = Chr(c: char) | Star

  /** A run of literal characters and wildcards; the options of a group. */
  type Glob = seq<GlobTok>

  datatype Segment = Tok(tok: GlobTok) | Group(options: seq<Glob>)

  type Pattern = seq<Segment>

  /** Why a pattern string does not compile. */
  datatype PatternError =
    | UnclosedGroup    // a `(` with no matching `)`
    | NestedGroup      // a `(` inside a group
    | UnmatchedClose   // a `)` outside any group

  datatype Result<T> = Ok(value: T) | Err(error: PatternError)

  // ---------------------------------------------------------------------
  // Matching

  /** Whole-string match of a glob. */
  predicate GlobMatch(g: Glob, s: string)
    decreases |g|
  {
    if g == [] then s == []
    else match g[0]
      case Chr(c) => |s| > 0 && s[0] == c && GlobMatch(g[1..], s[1..])
      case Star => exists i | 0 <= i <= |s| :: GlobMatch(g[1..], s[i..])
  }

  /** Whole-key match of a pattern (anchored at both ends). */
  predicate Matches(p: Pattern, s: string)
    decreases |p|
  {
    if p == [] then s == []
    else match p[0]
      case Tok(Chr(c)) => |s| > 0 && s[0] == c && Matches(p[1..], s[1..])
      case Tok(Star) => exists i | 0 <= i <= |s| :: Matches(p[1..], s[i..])
      case Group(opts) =>
        exists i, j | 0 <= i <= |s| && 0 <= j < |opts| ::
          GlobMatch(opts[j], s[..i]) && Matches(p[1..], s[i..])
  }

  // ---------------------------------------------------------------------
  // Literal keys

  /** The pattern that matches the key `k` and nothing else: every
      character of `k`, `*` and parentheses included, taken literally. */
  function Escape(k: string): Pattern
  {
    if k == [] then [] else [Tok(Chr(k[0]))] + Escape(k[1..])
  }

  /** The glob made of the literal characters of `w`. */
  function LitGlob(w: string): Glob
  {
    if w == [] then [] else [Chr(w[0])] + LitGlob(w[1..])
  }

  /** An escaped key in front of a pattern consumes exactly that key. */
  lemma {:induction false} EscapePrefix(pre: string, p: Pattern, s: string)
    ensures Matches(Escape(pre) + p, s) <==>
            (|pre| <= |s| && s[..|pre|] == pre && Matches(p, s[|pre|..]))
  {
    if pre == [] {
      assert Escape(pre) + p == p;
    } else {
      EscapeStep(pre, p, s);
      if |s| > 0 {
        EscapePrefix(pre[1..], p, s[1..]);
        if |pre| <= |s| {
          PrefixCons(pre, s);
        }
      }
    }
  }

  /** Matching an escaped key in front of a pattern, one character at a
      time. */
  lemma EscapeStep(pre: string, p: Pattern, s: string)
    requires pre != []
    ensures Matches(Escape(pre) + p, s) <==>
            (|s| > 0 && s[0] == pre[0] && Matches(Escape(pre[1..]) + p, s[1..]))
  {
    var q := Escape(pre) + p;
    assert q[0] == Tok(Chr(pre[0]));
    assert q[1..] == Escape(pre[1..]) + p;
  }

  /** `s` starts with `pre` when their first characters agree and the
      rest of `s` starts with the rest of `pre`. */
  lemma PrefixCons(pre: string, s: string)
    requires 0 < |pre| <= |s|
    ensures s[..|pre|] == pre <==> s[0] == pre[0] && s[1..][..|pre| - 1] == pre[1..]
    ensures s[1..][|pre| - 1..] == s[|pre|..]
  {
    assert s[..|pre|] == [s[0]] + s[1..][..|pre| - 1];
    assert pre == [pre[0]] + pre[1..];
  }

  /** An escaped key matches exactly that key. */
  lemma EscapeExact(k: string, s: string)
    ensures Matches(Escape(k), s) <==> s == k
  {
    EscapePrefix(k, [], s);
    assert Escape(k) + [] == Escape(k);
  }

  /** A literal glob matches exactly its own characters. */
  lemma {:induction false} LitGlobExact(w: string, s: string)
    ensures GlobMatch(LitGlob(w), s) <==> s == w
  {
    if w != [] {
      assert LitGlob(w)[1..] == LitGlob(w[1..]);
      if |s| > 0 {
        LitGlobExact(w[1..], s[1..]);
        PrefixCons(w, w);
        if |w| <= |s| {
          PrefixCons(w, s);
        }
        assert s == w <==> s[0] == w[0] && s[1..] == w[1..];
      }
    }
  }

  /** A key name with no `)` either: text the compiler reads character
      for character, so escaping it and compiling it agree. */
  predicate IsLiteral(k: string)
  {
    IsKeyName(k) && ')' !in k
  }

  /** `pre*` matches exactly the keys that start with `pre`. */
  lemma PrefixStar(pre: string, s: string)
    ensures Matches(Escape(pre) + [Tok(Star)], s) <==>
            (|pre| <= |s| && s[..|pre|] == pre)
  {
    EscapePrefix(pre, [Tok(Star)], s);
    if |pre| <= |s| {
      StarMatchesAll(s[|pre|..]);
    }
  }

  /** A lone `*` matches every key. */
  lemma StarMatchesAll(t: string)
    ensures Matches([Tok(Star)], t)
  {
    var p: Pattern := [Tok(Star)];
    assert p[1..] == [];
    assert Matches(p[1..], t[|t|..]);
  }

  /** `pre(w0,w1,...)` with literal options matches exactly the keys
      `pre + w0`, `pre + w1`, ... */
  lemma PrefixGroup(pre: string, words: seq<string>, opts: seq<Glob>, s: string)
    requires |opts| == |words|
    requires forall j | 0 <= j < |opts| :: opts[j] == LitGlob(words[j])
    ensures Matches(Escape(pre) + [Group(opts)], s) <==>
            exists j | 0 <= j < |words| :: s == pre + words[j]
  {
    EscapePrefix(pre, [Group(opts)], s);
    if |pre| <= |s| {
      var t := s[|pre|..];
      SingleGroupMatch(opts, t);
      forall j | 0 <= j < |opts|
        ensures (s[..|pre|] == pre && GlobMatch(opts[j], t)) <==> s == pre + words[j]
      {
        LitGlobExact(words[j], t);
        SplitPrefix(pre, s, words[j]);
      }
    }
    forall j | 0 <= j < |words| && s == pre + words[j] ensures |pre| <= |s| { }
  }

  /** A pattern of one group matches what one of its options matches. */
  lemma SingleGroupMatch(opts: seq<Glob>, t: string)
    ensures Matches([Group(opts)], t) <==> exists j | 0 <= j < |opts| :: GlobMatch(opts[j], t)
  {
    var p: Pattern := [Group(opts)];
    assert p[1..] == [];
    if Matches(p, t) {
      var i, j :| 0 <= i <= |t| && 0 <= j < |opts| &&
                  GlobMatch(opts[j], t[..i]) && Matches(p[1..], t[i..]);
      assert t[..i] == t;
    }
    if exists j | 0 <= j < |opts| :: GlobMatch(opts[j], t) {
      var j :| 0 <= j < |opts| && GlobMatch(opts[j], t);
      assert t[..|t|] == t;
      assert GlobMatch(opts[j], t[..|t|]) && Matches(p[1..], t[|t|..]);
    }
  }

  /** `s` is `pre` followed by `w` exactly when it starts with `pre` and
      the rest is `w`. */
  lemma SplitPrefix(pre: string, s: string, w: string)
    requires |pre| <= |s|
    ensures s == pre + w <==> s[..|pre|] == pre && s[|pre|..] == w
  {
    if s[..|pre|] == pre && s[|pre|..] == w {
      assert s == s[..|pre|] + s[|pre|..];
    }
  }

  // ---------------------------------------------------------------------
  // Compiling a pattern string, and writing a pattern back out

  function RenderTok(t: GlobTok): string
  {
    match t
    case Chr(c) => [c]
    case Star => "*"
  }

  /** The token a character stands for in a glob. */
  function TokOf(c: char): (t: GlobTok)
    ensures RenderTok(t) == [c]
  {
    if c == '*' then Star else Chr(c)
  }

  function RenderGlob(g: Glob): string
  {
    if g == [] then "" else RenderTok(g[0]) + RenderGlob(g[1..])
  }

  /** The options of a group, joined with commas. */
  function RenderOptions(opts: seq<Glob>): string
  {
    if opts == [] then ""
    else if |opts| == 1 then RenderGlob(opts[0])
    else RenderGlob(opts[0]) + "," + RenderOptions(opts[1..])
  }

  function RenderSegment(seg: Segment): string
  {
    match seg
    case Tok(t) => RenderTok(t)
    case Group(opts) => "(" + RenderOptions(opts) + ")"
  }

  /** The pattern string a pattern is written as. */
  function Render(p: Pattern): string
  {
    if p == [] then "" else RenderSegment(p[0]) + Render(p[1..])
  }

  lemma RenderCons(seg: Segment, p: Pattern)
    ensures Render([seg] + p) == RenderSegment(seg) + Render(p)
  {
    assert ([seg] + p)[1..] == p;
  }

  /** The characters that end an option of a group. */
  predicate EndsOption(c: char)
  {
    c == ',' || c == '(' || c == ')'
  }

  /** Reads one option of a group: everything up to the next `,`, `(`,
      `)` or the end; returns it with the unread rest. */
  function ParseGlob(s: string): (r: (Glob, string))
    ensures |r.1| <= |s|
    ensures r.1 == [] || EndsOption(r.1[0])
  {
    if s == [] || EndsOption(s[0]) then ([], s)
    else
      var r := ParseGlob(s[1..]);
      ([TokOf(s[0])] + r.0, r.1)
  }

  /** Reads the options of a group whose `(` has been consumed, up to and
      including its `)`; returns them with the unread rest. */
  function ParseGroupBody(s: string): (r: Result<(seq<Glob>, string)>)
    ensures r.Ok? ==> |r.value.0| > 0 && |r.value.1| < |s|
    ensures r.Err? ==> r.error != UnmatchedClose
    decreases |s|
  {
    var g := ParseGlob(s).0;
    var rest := ParseGlob(s).1;
    if rest == [] then Err(UnclosedGroup)
    else if rest[0] == ')' then Ok(([g], rest[1..]))
    else if rest[0] == '(' then Err(NestedGroup)
    else
      var more := ParseGroupBody(rest[1..]);
      if more.Err? then more
      else Ok(([g] + more.value.0, more.value.1))
  }

  /** Compiles a pattern string: `*` outside a group is a wildcard, a
      group runs from `(` to the next `)`, and every other character is
      literal. */
  function Compile(s: string): (r: Result<Pattern>)
    ensures r.Ok? ==> |r.value| <= |s| && (r.value == [] <==> s == [])
    decreases |s|
  {
    if s == [] then Ok([])
    else if s[0] == ')' then Err(UnmatchedClose)
    else if s[0] == '(' then
      match ParseGroupBody(s[1..])
      case Err(e) => Err(e)
      case Ok((opts, rest)) =>
        match Compile(rest)
        case Err(e) => Err(e)
        case Ok(p) => Ok([Group(opts)] + p)
    else
      var t := TokOf(s[0]);
      match Compile(s[1..])
      case Err(e) => Err(e)
      case Ok(p) => Ok([Tok(t)] + p)
  }

  /** Reading an option loses nothing: the option and the rest are the
      input again. */
  lemma {:induction false} ParseGlobSplits(s: string)
    ensures s == RenderGlob(ParseGlob(s).0) + ParseGlob(s).1
  {
    if s != [] && !EndsOption(s[0]) {
      ParseGlobSplits(s[1..]);
      ParseGlobSplitsStep(s, ParseGlob(s[1..]).0, ParseGlob(s[1..]).1);
    }
  }

  lemma ParseGlobSplitsStep(s: string, g: Glob, rest: string)
    requires s != [] && !EndsOption(s[0])
    requires ParseGlob(s[1..]) == (g, rest)
    requires s[1..] == RenderGlob(g) + rest
    ensures s == RenderGlob(ParseGlob(s).0) + ParseGlob(s).1
  {
    var t := TokOf(s[0]);
    assert ParseGlob(s) == ([t] + g, rest);
    RenderGlobCons(t, g);
    Uncons(s, RenderGlob(g) + rest);
    Assoc(RenderTok(t), RenderGlob(g), rest);
  }

  lemma RenderGlobCons(t: GlobTok, g: Glob)
    ensures RenderGlob([t] + g) == RenderTok(t) + RenderGlob(g)
  {
    assert ([t] + g)[1..] == g;
  }

  lemma Assoc(a: string, b: string, c: string)
    ensures a + b + c == a + (b + c)
  {
  }

  lemma {:induction false} ParseGroupBodySplits(s: string)
    ensures ParseGroupBody(s).Ok? ==>
              s == RenderOptions(ParseGroupBody(s).value.0) + ")" + ParseGroupBody(s).value.1
    decreases |s|
  {
    var g, rest := ParseGlob(s).0, ParseGlob(s).1;
    ParseGlobSplits(s);
    if rest != [] && rest[0] == ',' {
      ParseGroupBodySplits(rest[1..]);
      ParseGroupBodyCommaSplits(s, g, rest);
    } else if rest != [] && rest[0] == ')' {
      ParseGroupBodyCloseSplits(s, g, rest);
    }
  }

  /** The step of `ParseGroupBodySplits` at the closing `)`. */
  lemma ParseGroupBodyCloseSplits(s: string, g: Glob, rest: string)
    requires ParseGlob(s) == (g, rest)
    requires s == RenderGlob(g) + rest
    requires rest != [] && rest[0] == ')'
    ensures ParseGroupBody(s).Ok? &&
            s == RenderOptions(ParseGroupBody(s).value.0) + ")" + ParseGroupBody(s).value.1
  {
    ParseGroupBodyAtClose(s, g, rest);
    JoinAtClose(s, RenderGlob(g), rest);
  }

  /** How `ParseGroupBody` ends at an option ended by `)`. */
  lemma ParseGroupBodyAtClose(s: string, g: Glob, rest: string)
    requires ParseGlob(s) == (g, rest)
    requires rest != [] && rest[0] == ')'
    ensures ParseGroupBody(s) == Ok(([g], rest[1..]))
    ensures RenderOptions([g]) == RenderGlob(g)
  {
  }

  /** Text split after an option at a `)` is the option, the `)` and the
      rest. */
  lemma JoinAtClose(s: string, a: string, rest: string)
    requires s == a + rest
    requires rest != [] && rest[0] == ')'
    ensures s == a + ")" + rest[1..]
  {
    Uncons(rest, rest[1..]);
  }

  /** The step of `ParseGroupBodySplits` past a `,`. */
  lemma ParseGroupBodyCommaSplits(s: string, g: Glob, rest: string)
    requires ParseGlob(s) == (g, rest)
    requires s == RenderGlob(g) + rest
    requires rest != [] && rest[0] == ','
    requires var more := ParseGroupBody(rest[1..]);
             more.Ok? ==> rest[1..] == RenderOptions(more.value.0) + ")" + more.value.1
    ensures ParseGroupBody(s).Ok? ==>
              s == RenderOptions(ParseGroupBody(s).value.0) + ")" + ParseGroupBody(s).value.1
  {
    var more := ParseGroupBody(rest[1..]);
    ParseGroupBodyAtComma(s, g, rest);
    if more.Ok? {
      var gs := more.value.0;
      RenderOptionsCons(g, gs);
      JoinAtComma(s, RenderGlob(g), rest, RenderOptions(gs), more.value.1);
    }
  }

  /** How `ParseGroupBody` continues after an option ended by `,`. */
  lemma ParseGroupBodyAtComma(s: string, g: Glob, rest: string)
    requires ParseGlob(s) == (g, rest)
    requires rest != [] && rest[0] == ','
    ensures ParseGroupBody(s).Ok? <==> ParseGroupBody(rest[1..]).Ok?
    ensures ParseGroupBody(rest[1..]).Ok? ==>
              ParseGroupBody(s) == Ok(([g] + ParseGroupBody(rest[1..]).value.0,
                                       ParseGroupBody(rest[1..]).value.1))
  {
  }

  /** A non-empty string is its first character followed by the rest. */
  lemma Uncons(s: string, u: string)
    requires s != [] && s[1..] == u
    ensures s == [s[0]] + u
  {
  }

  lemma RenderOptionsCons(g: Glob, gs: seq<Glob>)
    requires gs != []
    ensures RenderOptions([g] + gs) == RenderGlob(g) + "," + RenderOptions(gs)
  {
    assert ([g] + gs)[1..] == gs;
  }

  /** Text split after an option at a `,` is the option, the comma and
      the rest. */
  lemma JoinAtComma(s: string, a: string, rest: string, b: string, t: string)
    requires s == a + rest
    requires rest != [] && rest[0] == ',' && rest[1..] == b + ")" + t
    ensures s == a + "," + b + ")" + t
  {
    Uncons(rest, b + ")" + t);
  }

  /** Every successful compilation can be written back as the very string
      it came from: compiling loses nothing of the pattern string. */
  lemma {:induction false} RenderCompile(s: string)
    ensures Compile(s).Ok? ==> Render(Compile(s).value) == s
    decreases |s|
  {
    if s != [] && s[0] == '(' {
      ParseGroupBodySplits(s[1..]);
      var body := ParseGroupBody(s[1..]);
      if body.Ok? {
        RenderCompile(body.value.1);
        RenderCompileGroup(s, body.value.0, body.value.1);
      }
    } else if s != [] && s[0] != ')' {
      RenderCompile(s[1..]);
      RenderCompileTok(s);
    }
  }

  lemma RenderCompileGroup(s: string, opts: seq<Glob>, rest: string)
    requires s != [] && s[0] == '('
    requires ParseGroupBody(s[1..]) == Ok((opts, rest))
    requires s[1..] == RenderOptions(opts) + ")" + rest
    requires Compile(rest).Ok? ==> Render(Compile(rest).value) == rest
    ensures Compile(s).Ok? ==> Render(Compile(s).value) == s
  {
    if Compile(rest).Ok? {
      var p := Compile(rest).value;
      CompileOpenParen(s, opts, rest, p);
      GroupText(s, opts, rest, p);
    }
  }

  /** The text of a group segment in front of a pattern. */
  lemma GroupText(s: string, opts: seq<Glob>, rest: string, p: Pattern)
    requires s != [] && s[0] == '('
    requires s[1..] == RenderOptions(opts) + ")" + rest
    requires Render(p) == rest
    ensures Render([Group(opts)] + p) == s
  {
    var r := RenderOptions(opts);
    RenderCons(Group(opts), p);
    OpenParenText(r, rest);
    Uncons(s, r + ")" + rest);
    assert [s[0]] == "(";
  }

  /** A group's text starts with `(` and goes on with the options, the
      `)` and what follows. */
  lemma OpenParenText(r: string, rest: string)
    ensures "(" + r + ")" + rest == "(" + (r + ")" + rest)
    ensures ("(" + r + ")" + rest)[0] == '('
    ensures ("(" + r + ")" + rest)[1..] == r + ")" + rest
  {
    Assoc("(", r, ")");
    Assoc("(", r + ")", rest);
    var u := r + ")" + rest;
    assert ("(" + u)[1..] == u;
  }

  lemma RenderCompileTok(s: string)
    requires s != [] && s[0] != '(' && s[0] != ')'
    requires Compile(s[1..]).Ok? ==> Render(Compile(s[1..]).value) == s[1..]
    ensures Compile(s).Ok? ==> Render(Compile(s).value) == s
  {
    var t := TokOf(s[0]);
    if Compile(s[1..]).Ok? {
      var p := Compile(s[1..]).value;
      assert Compile(s) == Ok([Tok(t)] + p);
      RenderCons(Tok(t), p);
      assert RenderTok(t) == [s[0]];
      Uncons(s, Render(p));
    }
  }

  // ---------------------------------------------------------------------
  // The other direction: every well-formed pattern is written as a string
  // that compiles back to it.

  /** A character of a glob that `Render` can write without it being read
      back as syntax. */
  predicate PlainInGroup(t: GlobTok)
  {
    t.Chr? ==> t.c != '*' && !EndsOption(t.c)
  }

  predicate WellFormedSegment(seg: Segment)
  {
    match seg
    case Tok(t) => t.Chr? ==> t.c != '*' && t.c != '(' && t.c != ')'
    case Group(opts) =>
      |opts| > 0 &&
      forall j, i | 0 <= j < |opts| && 0 <= i < |opts[j]| :: PlainInGroup(opts[j][i])
  }

  predicate WellFormed(p: Pattern)
  {
    forall i | 0 <= i < |p| :: WellFormedSegment(p[i])
  }

  lemma {:induction false} ParseGlobRender(g: Glob, rest: string)
    requires forall i | 0 <= i < |g| :: PlainInGroup(g[i])
    requires rest == [] || EndsOption(rest[0])
    ensures ParseGlob(RenderGlob(g) + rest) == (g, rest)
  {
    if g != [] {
      ParseGlobRender(g[1..], rest);
      ParseGlobRenderStep(g[0], g[1..], rest);
      assert [g[0]] + g[1..] == g;
    } else {
      assert RenderGlob(g) + rest == rest;
    }
  }

  lemma ParseGlobRenderStep(t: GlobTok, g: Glob, rest: string)
    requires PlainInGroup(t)
    requires ParseGlob(RenderGlob(g) + rest) == (g, rest)
    ensures ParseGlob(RenderGlob([t] + g) + rest) == ([t] + g, rest)
  {
    var c := RenderTok(t)[0];
    assert RenderTok(t) == [c] && TokOf(c) == t && !EndsOption(c);
    RenderGlobCons(t, g);
    Assoc(RenderTok(t), RenderGlob(g), rest);
    ParseGlobCons(c, RenderGlob(g) + rest);
  }

  /** How `ParseGlob` reads one character that does not end the option. */
  lemma ParseGlobCons(c: char, u: string)
    requires !EndsOption(c)
    ensures ParseGlob([c] + u) == ([TokOf(c)] + ParseGlob(u).0, ParseGlob(u).1)
  {
    assert ([c] + u)[1..] == u;
  }

  lemma {:induction false} ParseGroupBodyRender(opts: seq<Glob>, rest: string)
    requires |opts| > 0
    requires forall j, i | 0 <= j < |opts| && 0 <= i < |opts[j]| :: PlainInGroup(opts[j][i])
    ensures ParseGroupBody(RenderOptions(opts) + ")" + rest) == Ok((opts, rest))
  {
    if |opts| == 1 {
      ParseGroupBodyRenderLast(opts[0], rest);
      assert [opts[0]] == opts;
    } else {
      ParseGroupBodyRender(opts[1..], rest);
      ParseGroupBodyRenderNext(opts[0], opts[1..], rest);
      assert [opts[0]] + opts[1..] == opts;
    }
  }

  /** The last option of a group is read up to its `)`. */
  lemma ParseGroupBodyRenderLast(g: Glob, rest: string)
    requires forall i | 0 <= i < |g| :: PlainInGroup(g[i])
    ensures ParseGroupBody(RenderOptions([g]) + ")" + rest) == Ok(([g], rest))
  {
    var s := RenderOptions([g]) + ")" + rest;
    assert s == RenderGlob(g) + (")" + rest);
    ParseGlobRender(g, ")" + rest);
    assert (")" + rest)[1..] == rest;
  }

  /** An option followed by `,` is read, then the remaining options. */
  lemma ParseGroupBodyRenderNext(g: Glob, gs: seq<Glob>, rest: string)
    requires gs != []
    requires forall i | 0 <= i < |g| :: PlainInGroup(g[i])
    requires ParseGroupBody(RenderOptions(gs) + ")" + rest) == Ok((gs, rest))
    ensures ParseGroupBody(RenderOptions([g] + gs) + ")" + rest) == Ok(([g] + gs, rest))
  {
    var tail := RenderOptions(gs) + ")" + rest;
    var s := RenderOptions([g] + gs) + ")" + rest;
    RenderOptionsCons(g, gs);
    SplitAtComma(s, RenderGlob(g), RenderOptions(gs), rest);
    ParseGlobRender(g, "," + tail);
    assert ("," + tail)[1..] == tail;
    ParseGroupBodyAtComma(s, g, "," + tail);
  }

  /** The converse of `JoinAtComma`. */
  lemma SplitAtComma(s: string, a: string, b: string, t: string)
    requires s == a + "," + b + ")" + t
    ensures s == a + ("," + (b + ")" + t))
  {
  }

  /** Compiling the written form of a well-formed pattern gives the
      pattern back. */
  lemma {:induction false} CompileRender(p: Pattern)
    requires WellFormed(p)
    ensures Compile(Render(p)) == Ok(p)
  {
    if p != [] {
      assert WellFormed(p[1..]);
      CompileRender(p[1..]);
      CompileRenderStep(p);
    }
  }

  /** One step of `CompileRender`: the first segment is read back. */
  lemma CompileRenderStep(p: Pattern)
    requires p != [] && WellFormedSegment(p[0])
    requires Compile(Render(p[1..])) == Ok(p[1..])
    ensures Compile(Render(p)) == Ok(p)
  {
    CompileRenderCons(p[0], p[1..]);
    assert [p[0]] + p[1..] == p;
  }

  lemma CompileRenderCons(seg: Segment, q: Pattern)
    requires WellFormedSegment(seg)
    requires Compile(Render(q)) == Ok(q)
    ensures Compile(Render([seg] + q)) == Ok([seg] + q)
  {
    RenderCons(seg, q);
    match seg
    case Tok(t) => CompileRenderTok(t, q);
    case Group(opts) => CompileRenderGroup(opts, q);
  }

  lemma CompileRenderTok(t: GlobTok, q: Pattern)
    requires WellFormedSegment(Tok(t))
    requires Compile(Render(q)) == Ok(q)
    ensures Compile(RenderTok(t) + Render(q)) == Ok([Tok(t)] + q)
  {
    var s := RenderTok(t) + Render(q);
    assert s[1..] == Render(q);
    assert s[0] != '(' && s[0] != ')';
    assert TokOf(s[0]) == t;
  }

  lemma CompileRenderGroup(opts: seq<Glob>, q: Pattern)
    requires WellFormedSegment(Group(opts))
    requires Compile(Render(q)) == Ok(q)
    ensures Compile("(" + RenderOptions(opts) + ")" + Render(q)) == Ok([Group(opts)] + q)
  {
    var s := "(" + RenderOptions(opts) + ")" + Render(q);
    OpenParenText(RenderOptions(opts), Render(q));
    ParseGroupBodyRender(opts, Render(q));
    CompileOpenParen(s, opts, Render(q), q);
  }

  /** How `Compile` reads a group, stated without rendering. */
  lemma CompileOpenParen(s: string, opts: seq<Glob>, rest: string, q: Pattern)
    requires |s| > 0 && s[0] == '('
    requires ParseGroupBody(s[1..]) == Ok((opts, rest))
    requires Compile(rest) == Ok(q)
    ensures Compile(s) == Ok([Group(opts)] + q)
  {
  }

  /** Compiling only ever produces well-formed patterns; with
      `RenderCompile` and `CompileRender`, `Compile` and `Render` are
      inverse bijections between the strings that compile and the
      well-formed patterns. */
  lemma {:induction false} CompileWellFormed(s: string)
    ensures Compile(s).Ok? ==> WellFormed(Compile(s).value)
    decreases |s|
  {
    if s != [] && s[0] == '(' {
      var body := ParseGroupBody(s[1..]);
      if body.Ok? {
        var opts, rest := body.value.0, body.value.1;
        ParseGroupBodyPlain(s[1..]);
        CompileWellFormed(rest);
        if Compile(rest).Ok? {
          WellFormedCons(Group(opts), Compile(rest).value);
        }
      }
    } else if s != [] && s[0] != ')' {
      CompileWellFormed(s[1..]);
      if Compile(s[1..]).Ok? {
        WellFormedCons(Tok(TokOf(s[0])), Compile(s[1..]).value);
      }
    }
  }

  lemma WellFormedCons(seg: Segment, p: Pattern)
    requires WellFormedSegment(seg) && WellFormed(p)
    ensures WellFormed([seg] + p)
  {
    forall i | 0 <= i < |[seg] + p| ensures WellFormedSegment(([seg] + p)[i]) {
      if i > 0 { assert ([seg] + p)[i] == p[i - 1]; }
    }
  }

  /** Every character of an option that is read may stand in a group. */
  lemma {:induction false} ParseGlobPlain(s: string)
    ensures forall i | 0 <= i < |ParseGlob(s).0| :: PlainInGroup(ParseGlob(s).0[i])
  {
    if s != [] && !EndsOption(s[0]) {
      ParseGlobPlain(s[1..]);
      var g := ParseGlob(s[1..]).0;
      assert ParseGlob(s).0 == [TokOf(s[0])] + g;
      forall i | 0 < i < |ParseGlob(s).0| ensures ParseGlob(s).0[i] == g[i - 1] { }
    }
  }

  /** Every character of every option of a group that is read may stand
      in a group. */
  lemma {:induction false} ParseGroupBodyPlain(s: string)
    ensures ParseGroupBody(s).Ok? ==>
              forall j, i | 0 <= j < |ParseGroupBody(s).value.0| && 0 <= i < |ParseGroupBody(s).value.0[j]| ::
                PlainInGroup(ParseGroupBody(s).value.0[j][i])
    decreases |s|
  {
    var g, rest := ParseGlob(s).0, ParseGlob(s).1;
    ParseGlobPlain(s);
    if rest != [] && rest[0] == ',' {
      ParseGroupBodyPlain(rest[1..]);
      var more := ParseGroupBody(rest[1..]);
      if more.Ok? {
        var opts := [g] + more.value.0;
        assert ParseGroupBody(s).value.0 == opts;
        forall j | 0 < j < |opts| ensures opts[j] == more.value.0[j - 1] { }
      }
    }
  }

  // ---------------------------------------------------------------------
  // Compiling literal text

  /** Literal text in front of a pattern string compiles to its escaped
      form in front of whatever the rest compiles to; in particular a
      literal key compiles to the exact-match pattern for that key. */
  lemma {:induction false} CompileLiteralPrefix(pre: string, rest: string)
    requires IsLiteral(pre)
    ensures Compile(pre + rest) ==
            match Compile(rest)
            case Ok(p) => Ok(Escape(pre) + p)
            case Err(e) => Err(e)
  {
    if pre != [] {
      var s := pre + rest;
      assert s[1..] == pre[1..] + rest;
      TailIn(pre);
      CompileLiteralPrefix(pre[1..], rest);
      assert s[0] == pre[0];
      match Compile(rest)
      case Err(_) =>
      case Ok(p) =>
        assert [Tok(Chr(pre[0]))] + (Escape(pre[1..]) + p) == Escape(pre) + p;
    } else {
      assert pre + rest == rest;
      match Compile(rest)
      case Err(_) =>
      case Ok(p) => assert Escape(pre) + p == p;
    }
  }

  /** Every character of a non-empty string's tail is one of its own. */
  lemma TailIn(s: string)
    requires s != []
    ensures forall c | c in s[1..] :: c in s
  {
    forall c | c in s[1..] ensures c in s {
      var i :| 0 <= i < |s[1..]| && s[1..][i] == c;
      assert s[i + 1] == c;
    }
  }

  /** Literal text with no `,` either: it can stand as an option of a
      group as it is. */
  predicate IsWord(w: string)
  {
    IsLiteral(w) && ',' !in w
  }

  /** A word is written back as itself from its literal glob, and every
      character of that glob may stand in a group. */
  lemma {:induction false} LitGlobRender(w: string)
    requires IsWord(w)
    ensures RenderGlob(LitGlob(w)) == w
    ensures forall i | 0 <= i < |LitGlob(w)| :: PlainInGroup(LitGlob(w)[i])
  {
    if w != [] {
      TailIn(w);
      LitGlobRender(w[1..]);
      assert LitGlob(w) == [Chr(w[0])] + LitGlob(w[1..]);
      assert w == [w[0]] + w[1..];
    }
  }

  /** A literal option followed by the end or by `,`, `(` or `)` is read
      as that option. */
  lemma ParseGlobLiteral(w: string, rest: string)
    requires IsWord(w)
    requires rest == [] || EndsOption(rest[0])
    ensures ParseGlob(w + rest) == (LitGlob(w), rest)
  {
    LitGlobRender(w);
    ParseGlobRender(LitGlob(w), rest);
  }

  lemma CompileLiteral(k: string)
    requires IsLiteral(k)
    ensures Compile(k) == Ok(Escape(k))
  {
    CompileLiteralPrefix(k, "");
    assert k + "" == k;
    assert Escape(k) + [] == Escape(k);
  }

  /** `pre*` with literal `pre` compiles to the escaped prefix followed by
      the wildcard. */
  lemma CompilePrefixStar(pre: string)
    requires IsLiteral(pre)
    ensures Compile(pre + "*") == Ok(Escape(pre) + [Tok(Star)])
  {
    CompileLiteralPrefix(pre, "*");
    assert Render([]) == "";
    CompileRenderTok(Star, []);
    assert RenderTok(Star) + Render([]) == "*";
    assert [Tok(Star)] + [] == [Tok(Star)];
  }

  /** `pre(w1,w2)` with literal `pre` and words `w1`, `w2` compiles to the
      escaped prefix followed by one group with the two literal options. */
  lemma CompilePrefixGroup(pre: string, w1: string, w2: string)
    requires IsLiteral(pre) && IsWord(w1) && IsWord(w2)
    ensures Compile(pre + ("(" + w1 + "," + w2 + ")")) ==
            Ok(Escape(pre) + [Group([LitGlob(w1), LitGlob(w2)])])
  {
    CompileTwoOptions(w1, w2);
    CompileLiteralPrefix(pre, "(" + w1 + "," + w2 + ")");
  }

  /** `(w1,w2)` compiles to one group with the two literal options. */
  lemma CompileTwoOptions(w1: string, w2: string)
    requires IsWord(w1) && IsWord(w2)
    ensures Compile("(" + w1 + "," + w2 + ")") == Ok([Group([LitGlob(w1), LitGlob(w2)])])
  {
    var opts := [LitGlob(w1), LitGlob(w2)];
    LitGlobRender(w1);
    LitGlobRender(w2);
    RenderOptionsCons(LitGlob(w1), [LitGlob(w2)]);
    assert [LitGlob(w1)] + [LitGlob(w2)] == opts;
    assert WellFormedSegment(Group(opts));
    assert Render([]) == "";
    CompileRenderGroup(opts, []);
    TwoOptionsText(w1, w2, RenderOptions(opts));
    assert [Group(opts)] + [] == [Group(opts)];
  }

  /** The text of a group with options written `r == w1,w2`. */
  lemma TwoOptionsText(w1: string, w2: string, r: string)
    requires r == w1 + "," + w2
    ensures "(" + r + ")" + "" == "(" + w1 + "," + w2 + ")"
  {
    Assoc("(", w1, ",");
    Assoc("(", w1 + ",", w2);
    assert "(" + r + ")" + "" == "(" + r + ")";
  }

  // ---------------------------------------------------------------------
  // The matcher of a key argument

  /** An argument string with no `*` and no `(` names a key: it is
      escaped and matched literally, so a `)` or `,` in it is an ordinary
      character.  Any other argument string is a pattern. */
  predicate IsKeyName(t: string)
  {
    '*' !in t && '(' !in t
  }

  /** The matcher of an argument string: a key name is escaped, a pattern
      is compiled. */
  function CompileKey(t: string): (r: Result<Pattern>)
    ensures IsKeyName(t) ==> r.Ok? && forall s :: Matches(r.value, s) <==> s == t
    ensures !IsKeyName(t) ==> r == Compile(t)
  {
    if IsKeyName(t) then
      KeyNameMatcher(t);
      Ok(Escape(t))
    else
      Compile(t)
  }

  /** Escaping a key name gives the exact-match pattern, and for text
      without `)` it is also what compiling gives. */
  lemma KeyNameMatcher(t: string)
    requires IsKeyName(t)
    ensures forall s :: Matches(Escape(t), s) <==> s == t
    ensures IsLiteral(t) ==> Compile(t) == Ok(Escape(t))
  {
    forall s ensures Matches(Escape(t), s) <==> s == t {
      EscapeExact(t, s);
    }
    if IsLiteral(t) {
      CompileLiteral(t);
    }
  }
}
