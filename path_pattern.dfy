/**
  Compilation of a path expression such as /myApp/orders/{secret}/order into
  tokens: runs of ordinary parts, with their separating slashes, become one
  Literal; every {...} part becomes a Wildcard. These functions specify the
  two loops of the DefaultPathFilter constructor.
 */
module PathPattern {
  import opened JavaStrings

  /** A compiled token; the Java class stores a Wildcard as a null array entry. */
  datatype Token = Literal(text: string) | Wildcard

  /** A part is a placeholder when it starts with '{' and ends with '}' ("{}" included). */
  predicate IsPlaceholder(part: string)
    ensures IsPlaceholder(part) ==> |part| >= 2
  {
    |part| > 0 && part[0] == '{' && part[|part| - 1] == '}'
  }

  /** The token list built so far and the text pending in the string builder. */
  datatype Builder = Builder(tokens: seq<Token>, pending: string)

  /** The pending text becomes a Literal, but only when it is non-empty. */
  function Flush(b: Builder): (tokens: seq<Token>)
    ensures b.tokens <= tokens
    ensures tokens == b.tokens <==> b.pending == ""
    ensures WildcardCount(tokens) == WildcardCount(b.tokens)
  {
    if |b.pending| > 0 then
      WildcardCountAppend(b.tokens, Literal(b.pending));
      b.tokens + [Literal(b.pending)]
    else b.tokens
  }

  /**
    One part read into the builder: a placeholder flushes the pending text
    and adds a Wildcard; any other part is appended to the pending text.
   */
  function Absorb(b: Builder, part: string): (a: Builder)
    ensures b.tokens <= a.tokens
    ensures WildcardCount(a.tokens) == WildcardCount(b.tokens) + (if IsPlaceholder(part) then 1 else 0)
  {
    if IsPlaceholder(part) then
      WildcardCountAppend(Flush(b), Wildcard);
      Builder(Flush(b) + [Wildcard], "")
    else Builder(b.tokens, b.pending + part)
  }

  /** The builder after the first i iterations of the tokenising loop. */
  function Compiled(parts: seq<string>, i: nat): Builder
    requires i <= |parts|
  {
    if i == 0 then Builder([], "")
    else
      var b := Absorb(Compiled(parts, i - 1), parts[i - 1]);
      if i < |parts| then Builder(b.tokens, b.pending + "/") else b
  }

  /** The tokens the constructor stores for the given split parts. */
  function Tokenize(parts: seq<string>): seq<Token>
  {
    Flush(Compiled(parts, |parts|))
  }

  /** The tokens compiled from a path expression. */
  function Compile(pathExpression: string): seq<Token>
  {
    Tokenize(Split(pathExpression))
  }

  /** The text a token contributes to the precomputed substitute. */
  function Piece(t: Token, replacement: string): string
  {
    match t
    case Literal(text) => text
    case Wildcard => replacement
  }

  /** The tokens concatenated in order, each Wildcard written as replacement. */
  function Substitute(tokens: seq<Token>, replacement: string): (s: string)
    ensures WildcardCount(tokens) == 0 ==> s == Render(tokens, [])
  {
    if tokens == [] then ""
    else
      var init, last := tokens[..|tokens| - 1], tokens[|tokens| - 1];
      assert tokens == init + [last];
      LiteralAppend(init, last);
      Substitute(init, replacement) + Piece(last, replacement)
  }

  /** Without wildcards, rendering one more token appends its text. */
  lemma LiteralAppend(tokens: seq<Token>, t: Token)
    ensures WildcardCount(tokens + [t]) == 0 ==>
      && WildcardCount(tokens) == 0 && t.Literal?
      && Render(tokens + [t], []) == Render(tokens, []) + t.text
  {
    WildcardCountAppend(tokens, t);
    if WildcardCount(tokens + [t]) == 0 {
      var none: seq<string> := [];
      RenderAppend(tokens, none, t, none);
      assert none + none == none;
    }
  }

  function WildcardCount(tokens: seq<Token>): nat
  {
    if tokens == [] then 0
    else (if tokens[0].Wildcard? then 1 else 0) + WildcardCount(tokens[1..])
  }

  /** The placeholder parts, in order. */
  function Placeholders(parts: seq<string>): (r: seq<string>)
    ensures forall p :: p in r <==> p in parts && IsPlaceholder(p)
  {
    if parts == [] then []
    else
      var last := parts[|parts| - 1];
      assert parts == parts[..|parts| - 1] + [last];
      Placeholders(parts[..|parts| - 1]) + (if IsPlaceholder(last) then [last] else [])
  }

  /**
    The text the tokens stand for once the k-th Wildcard is filled with
    fills[k]: the independent reading of a token list.
   */
  function Render(tokens: seq<Token>, fills: seq<string>): string
    requires WildcardCount(tokens) == |fills|
  {
    if tokens == [] then ""
    else match tokens[0]
      case Literal(text) => text + Render(tokens[1..], fills)
      case Wildcard => fills[0] + Render(tokens[1..], fills[1..])
  }

  /** Every wildcard filled with the same text. */
  function Copies(s: string, n: nat): seq<string>
  {
    seq(n, _ => s)
  }

  /** Literal and Wildcard tokens alternate: no two neighbours are of one kind. */
  ghost predicate Alternating(tokens: seq<Token>)
  {
    forall j, k :: 0 <= j < k < |tokens| && k == j + 1 ==> tokens[j].Literal? != tokens[k].Literal?
  }

  ghost predicate LiteralsNonEmpty(tokens: seq<Token>)
  {
    forall k :: 0 <= k < |tokens| ==> tokens[k].Literal? ==> tokens[k].text != ""
  }

  /**
    A Literal after a Wildcard starts with '/', and a Literal before one ends
    with '/': a wildcard always stands for a whole slash-delimited part.
   */
  ghost predicate SlashBordered(tokens: seq<Token>)
    requires LiteralsNonEmpty(tokens)
  {
    && (forall k :: 0 < k < |tokens| ==> tokens[k].Literal? ==> tokens[k].text[0] == '/')
    && (forall k :: 0 <= k < |tokens| - 1 ==> tokens[k].Literal? ==>
          tokens[k].text[|tokens[k].text| - 1] == '/')
  }

  /** The shape every compiled token list has. */
  ghost predicate WellFormed(tokens: seq<Token>)
  {
    Alternating(tokens) && LiteralsNonEmpty(tokens) && SlashBordered(tokens)
  }

  lemma {:induction false} WildcardCountAppend(tokens: seq<Token>, t: Token)
    ensures WildcardCount(tokens + [t]) == WildcardCount(tokens) + (if t.Wildcard? then 1 else 0)
  {
    if tokens != [] {
      assert (tokens + [t])[1..] == tokens[1..] + [t];
      WildcardCountAppend(tokens[1..], t);
    }
  }

  /** Rendering one more token appends its text (or its fill) at the end. */
  lemma {:induction false} RenderAppend(tokens: seq<Token>, fills: seq<string>, t: Token, fill: seq<string>)
    requires WildcardCount(tokens) == |fills|
    requires |fill| == (if t.Wildcard? then 1 else 0)
    ensures WildcardCount(tokens + [t]) == |fills + fill|
    ensures Render(tokens + [t], fills + fill) ==
            Render(tokens, fills) + (if t.Wildcard? then fill[0] else t.text)
  {
    WildcardCountAppend(tokens, t);
    if tokens == [] {
      assert tokens + [t] == [t] && fills + fill == fill;
      assert [t][1..] == [];
      if t.Wildcard? {
        assert fill[1..] == [];
      }
    } else {
      var tail := tokens[1..];
      assert (tokens + [t])[1..] == tail + [t];
      WildcardCountAppend(tail, t);
      match tokens[0]
      case Literal(text) =>
        RenderAppend(tail, fills, t, fill);
        assert Render(tokens + [t], fills + fill) == text + Render(tail + [t], fills + fill);
      case Wildcard =>
        assert (fills + fill)[1..] == fills[1..] + fill;
        RenderAppend(tail, fills[1..], t, fill);
        assert Render(tokens + [t], fills + fill) == fills[0] + Render(tail + [t], fills[1..] + fill);
    }
  }

  /**
    The precomputed substitute is the rendering of the tokens with the
    replacement in every wildcard position.
   */
  lemma {:induction false} SubstituteRendersReplacement(tokens: seq<Token>, replacement: string)
    ensures WildcardCount(tokens) == |Copies(replacement, WildcardCount(tokens))|
    ensures Substitute(tokens, replacement) == Render(tokens, Copies(replacement, WildcardCount(tokens)))
  {
    if tokens != [] {
      var init, last := tokens[..|tokens| - 1], tokens[|tokens| - 1];
      assert tokens == init + [last];
      SubstituteRendersReplacement(init, replacement);
      var n := WildcardCount(init);
      var fill := if last.Wildcard? then [replacement] else [];
      RenderAppend(init, Copies(replacement, n), last, fill);
      WildcardCountAppend(init, last);
      assert Copies(replacement, n) + fill == Copies(replacement, WildcardCount(tokens));
    }
  }

  /** Invariant of the tokenising loop: the builder and tokens spell out the parts read so far. */
  lemma {:induction false} CompiledRendersParts(parts: seq<string>, i: nat)
    requires i <= |parts|
    ensures WildcardCount(Compiled(parts, i).tokens) == |Placeholders(parts[..i])|
    ensures Render(Compiled(parts, i).tokens, Placeholders(parts[..i])) + Compiled(parts, i).pending
            == Join(parts[..i]) + (if 0 < i < |parts| then "/" else "")
  {
    if i > 0 {
      CompiledRendersParts(parts, i - 1);
      var part := parts[i - 1];
      var b := Absorb(Compiled(parts, i - 1), part);
      PlaceholdersSnoc(parts, i);
      JoinPrefix(parts, i);
      AbsorbRenders(Compiled(parts, i - 1), Placeholders(parts[..i - 1]), part);
      if i < |parts| {
        var text := Render(b.tokens, Placeholders(parts[..i]));
        assert text + (b.pending + "/") == (text + b.pending) + "/";
      }
    }
  }

  /** The placeholders of one more part. */
  lemma PlaceholdersSnoc(parts: seq<string>, i: nat)
    requires 0 < i <= |parts|
    ensures Placeholders(parts[..i]) ==
            Placeholders(parts[..i - 1]) + (if IsPlaceholder(parts[i - 1]) then [parts[i - 1]] else [])
  {
    assert parts[..i][..i - 1] == parts[..i - 1];
  }

  /** The parts read so far, joined, once one more part is read. */
  lemma JoinPrefix(parts: seq<string>, i: nat)
    requires 0 < i <= |parts|
    ensures Join(parts[..i]) == Join(parts[..i - 1]) + (if 1 < i then "/" else "") + parts[i - 1]
  {
    assert parts[..i] == parts[..i - 1] + [parts[i - 1]];
    if i > 1 {
      JoinSnoc(parts[..i - 1], parts[i - 1]);
    }
  }

  /** Reading a part adds that part to the text the builder stands for. */
  lemma AbsorbRenders(b: Builder, fills: seq<string>, part: string)
    requires WildcardCount(b.tokens) == |fills|
    ensures var fills' := fills + (if IsPlaceholder(part) then [part] else []);
      && WildcardCount(Absorb(b, part).tokens) == |fills'|
      && Render(Absorb(b, part).tokens, fills') + Absorb(b, part).pending
         == Render(b.tokens, fills) + b.pending + part
  {
    var text := Render(b.tokens, fills);
    if IsPlaceholder(part) {
      FlushRenders(b, fills);
      RenderAppend(Flush(b), fills, Wildcard, [part]);
      assert Render(Flush(b), fills) + part + "" == text + b.pending + part;
    } else {
      assert fills + [] == fills;
      assert text + (b.pending + part) == text + b.pending + part;
    }
  }

  /** Flushing the builder keeps the text it stands for. */
  lemma FlushRenders(b: Builder, fills: seq<string>)
    requires WildcardCount(b.tokens) == |fills|
    ensures WildcardCount(Flush(b)) == |fills|
    ensures Render(Flush(b), fills) == Render(b.tokens, fills) + b.pending
  {
    if |b.pending| > 0 {
      RenderAppend(b.tokens, fills, Literal(b.pending), []);
      assert fills + [] == fills;
    }
  }

  /**
    Round trip of compilation: writing each Wildcard back as the placeholder
    part it came from and concatenating the tokens gives the split parts
    joined by '/'.
   */
  lemma TokenizeRoundTrip(parts: seq<string>)
    ensures WildcardCount(Tokenize(parts)) == |Placeholders(parts)|
    ensures Render(Tokenize(parts), Placeholders(parts)) == Join(parts)
  {
    CompiledRendersParts(parts, |parts|);
    assert parts[..|parts|] == parts;
    FlushRenders(Compiled(parts, |parts|), Placeholders(parts));
  }

  /** Invariant of the tokenising loop about the shape of what it has built. */
  lemma {:induction false} CompiledShape(parts: seq<string>, i: nat)
    requires i <= |parts|
    ensures WellFormed(Compiled(parts, i).tokens)
    ensures var b := Compiled(parts, i);
      && (b.tokens == [] || b.tokens[|b.tokens| - 1] == Wildcard)
      && (b.tokens != [] ==> b.pending == "" || b.pending[0] == '/')
      && (0 < i < |parts| ==> b.pending != "" && b.pending[|b.pending| - 1] == '/')
  {
    if i > 0 {
      CompiledShape(parts, i - 1);
      AbsorbShape(Compiled(parts, i - 1), parts[i - 1]);
    }
  }

  /**
    Reading a part keeps the shape, given that the pending text after a
    Wildcard is a non-empty text starting with '/' and every pending text
    ends with the '/' the loop added.
   */
  lemma AbsorbShape(b: Builder, part: string)
    requires WellFormed(b.tokens)
    requires b.tokens == [] || b.tokens[|b.tokens| - 1] == Wildcard
    requires b.tokens != [] ==> b.pending != "" && b.pending[0] == '/'
    requires b.pending != "" ==> b.pending[|b.pending| - 1] == '/'
    ensures var a := Absorb(b, part);
      && WellFormed(a.tokens)
      && (a.tokens == [] || a.tokens[|a.tokens| - 1] == Wildcard)
      && (a.tokens != [] ==> a.pending == "" || a.pending[0] == '/')
  {
    if IsPlaceholder(part) {
      if |b.pending| > 0 {
        AppendPreservesWellFormed(b.tokens, Literal(b.pending));
      }
      AppendPreservesWellFormed(Flush(b), Wildcard);
    }
  }

  /** Appending a token keeps the shape when it fits after the last one. */
  lemma AppendPreservesWellFormed(tokens: seq<Token>, t: Token)
    requires WellFormed(tokens)
    requires t.Literal? ==> t.text != ""
    requires tokens != [] ==> tokens[|tokens| - 1].Literal? != t.Literal?
    requires tokens != [] && t.Literal? ==> t.text[0] == '/'
    requires tokens != [] && tokens[|tokens| - 1].Literal? ==>
               tokens[|tokens| - 1].text[|tokens[|tokens| - 1].text| - 1] == '/'
    ensures WellFormed(tokens + [t])
  {
    var r := tokens + [t];
    assert forall k :: 0 <= k < |tokens| ==> r[k] == tokens[k];
  }

  /** Compiled tokens alternate, literals are non-empty and slashes border every wildcard. */
  lemma TokenizeWellFormed(parts: seq<string>)
    ensures WellFormed(Tokenize(parts))
  {
    CompiledShape(parts, |parts|);
    var b := Compiled(parts, |parts|);
    if |b.pending| > 0 {
      AppendPreservesWellFormed(b.tokens, Literal(b.pending));
    }
  }

  /**
    A pattern compiles to no token exactly when it has no placeholder and its
    parts join to the empty text, as "", "/" and "//" do.
   */
  lemma TokenizeEmpty(parts: seq<string>)
    ensures Tokenize(parts) == [] <==> Placeholders(parts) == [] && Join(parts) == ""
  {
    TokenizeRoundTrip(parts);
    TokenizeWellFormed(parts);
    var tokens := Tokenize(parts);
    if tokens != [] && Placeholders(parts) == [] {
      assert tokens[0].Literal?;
      assert |Render(tokens, [])| > 0;
    }
  }

  lemma {:induction false} NoPlaceholders(parts: seq<string>)
    requires forall p :: p in parts ==> !IsPlaceholder(p)
    ensures Placeholders(parts) == []
  {
    if parts != [] {
      var init := parts[..|parts| - 1];
      assert forall p :: p in init ==> p in parts;
      NoPlaceholders(init);
      assert parts[|parts| - 1] in parts;
    }
  }

  /** A well-formed token list without wildcards is empty or one Literal. */
  lemma LiteralsOnly(tokens: seq<Token>)
    requires WellFormed(tokens) && WildcardCount(tokens) == 0
    ensures tokens == [] || tokens == [Literal(Render(tokens, []))]
  {
    if tokens != [] {
      assert tokens[0].Literal?;
      assert tokens == [Literal(tokens[0].text)];
      assert tokens[1..] == [];
      assert Render(tokens[1..], []) == "";
      assert Render(tokens, []) == tokens[0].text + "" == tokens[0].text;
    }
  }

  /**
    A pattern without placeholders compiles to a single Literal holding its
    parts joined by '/', or to nothing when that text is empty.
   */
  lemma LiteralPattern(parts: seq<string>)
    requires forall p :: p in parts ==> !IsPlaceholder(p)
    ensures Tokenize(parts) == if Join(parts) == "" then [] else [Literal(Join(parts))]
  {
    NoPlaceholders(parts);
    TokenizeRoundTrip(parts);
    TokenizeWellFormed(parts);
    LiteralsOnly(Tokenize(parts));
  }
}
