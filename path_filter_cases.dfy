/**
  Concrete compilations and filterings, with XXX as the replacement: the
  documented pattern /orders/{secret}/order, a trailing placeholder, two
  placeholders in a row, and expressions that compile to no token.
 */
module PathFilterCases {
  import opened JavaStrings
  import opened PathPattern
  import opened PathMatching

  /** split("/") keeps a leading empty part and drops trailing ones. */
  lemma SplitCases()
    ensures Split("") == [""]
    ensures Split("/") == [] && Split("//") == []
    ensures Split("/a") == ["", "a"] && Split("a//") == ["a"]
  {
  }

  /** The tokens of /orders/{secret}/order. */
  function OrdersTokens(): seq<Token>
  {
    [Literal("/orders/"), Wildcard, Literal("/order")]
  }

  /** /orders/{secret}/order compiles to "/orders/", a wildcard and "/order". */
  lemma OrdersPattern()
    ensures Compile("/orders/{secret}/order") == OrdersTokens()
  {
    OrdersSplit();
    OrdersTokenize();
  }

  lemma OrdersSplit()
    ensures Split("/orders/{secret}/order") == ["", "orders", "{secret}", "order"]
  {
    var parts := ["", "orders", "{secret}", "order"];
    assert Join(parts) == "/orders/{secret}/order";
    SplitOfJoin(parts);
  }

  lemma OrdersTokenize()
    ensures Tokenize(["", "orders", "{secret}", "order"]) == OrdersTokens()
  {
    var parts := ["", "orders", "{secret}", "order"];
    assert Compiled(parts, 2) == Builder([], "/orders/") by {
      assert Compiled(parts, 1) == Builder([], "/");
    }
    assert Compiled(parts, 3) == Builder([Literal("/orders/"), Wildcard], "/") by {
      assert IsPlaceholder(parts[2]);
      assert Absorb(Builder([], "/orders/"), "{secret}") == Builder([Literal("/orders/"), Wildcard], "");
    }
    var b := Builder([Literal("/orders/"), Wildcard], "/order");
    assert Compiled(parts, 4) == b by {
      assert !IsPlaceholder(parts[3]);
    }
    assert Flush(b) == OrdersTokens();
  }

  /** Its substitute is the pattern with the placeholder written as XXX. */
  lemma OrdersSubstitute()
    ensures Substitute(OrdersTokens(), "XXX") == "/orders/XXX/order"
  {
    SubstituteRendersReplacement(OrdersTokens(), "XXX");
    OrdersRender("XXX");
    assert Copies("XXX", 1) == ["XXX"];
  }

  /** A full match gives exactly the substitute. */
  lemma OrdersFullMatch()
    ensures Redact(OrdersTokens(), "/orders/XXX/order", "/orders/42/order") == Success("/orders/XXX/order")
  {
    var tokens, path := OrdersTokens(), "/orders/42/order";
    assert path[0..8] == "/orders/" && path[10..16] == "/order";
    assert tokens[0] == Literal("/orders/") && tokens[1] == Wildcard && tokens[2] == Literal("/order");
    assert RegionMatches(path, 0, "/orders/") && RegionMatches(path, 10, "/order");
    IndexOfFinds(path, '/', 8, 10);
    assert Scan(tokens[2..], path, 10) == Consumed(16) by {
      assert tokens[2..][1..] == [];
    }
    assert Scan(tokens[1..], path, 8) == Consumed(16) by {
      assert tokens[1..][1..] == tokens[2..];
    }
    assert Scan(tokens, path, 0) == Consumed(16);
    assert path[16..] == [];
    assert "/orders/XXX/order" + path[16..] == "/orders/XXX/order";
  }

  /**
    A path longer than the pattern keeps its unmatched suffix after the
    substitute: /orders/42/order/extra becomes /orders/XXX/order/extra.
   */
  lemma OrdersSuffixCarried(fill: string, rest: string)
    requires '/' !in fill
    requires rest == [] || rest[0] == '/'
    ensures Redact(OrdersTokens(), "/orders/XXX/order", "/orders/" + fill + "/order" + rest)
            == Success("/orders/XXX/order" + rest)
  {
    var tokens := OrdersTokens();
    OrdersWellFormed();
    OrdersSubstitute();
    OrdersRender(fill);
    RedactRendered(tokens, "XXX", [fill], rest);
  }

  /** The tokens of /orders/{secret}/order have the shape every compiled token list has. */
  lemma OrdersWellFormed()
    ensures WellFormed(OrdersTokens())
  {
    OrdersPattern();
    TokenizeWellFormed(Split("/orders/{secret}/order"));
  }

  /** With a fill in place of the wildcard the tokens read /orders/<fill>/order. */
  lemma OrdersRender(fill: string)
    ensures WildcardCount(OrdersTokens()) == 1
    ensures Render(OrdersTokens(), [fill]) == "/orders/" + fill + "/order"
  {
    var tokens := OrdersTokens();
    assert tokens[1..][1..] == [Literal("/order")] && tokens[1..][1..][1..] == [];
    assert Render(tokens[1..][1..], []) == "/order" && [fill][1..] == [];
    assert Render(tokens[1..], [fill]) == fill + "/order";
  }

  /** A missing literal leaves the path unchanged. */
  lemma OrdersNoMatch()
    ensures Redact(OrdersTokens(), "/orders/XXX/order", "/customers/42") == Success("/customers/42")
  {
    var path := "/customers/42";
    assert path[1] != "/orders/"[1];
    assert !RegionMatches(path, 0, "/orders/");
  }

  /**
    A wildcard that finds no further '/' ends the scan: the trailing "/order"
    is never checked and the whole substitute comes back.
   */
  lemma OrdersShortPath()
    ensures Redact(OrdersTokens(), "/orders/XXX/order", "/orders/42") == Success("/orders/XXX/order")
  {
    var tokens, path := OrdersTokens(), "/orders/42";
    assert path[0..8] == "/orders/";
    assert IndexOf(path, '/', 8) == -1;
    assert Scan(tokens[1..], path, 8) == Swallowed;
  }

  /** The tokens of /orders/{secret}. */
  function TrailingTokens(): seq<Token>
  {
    [Literal("/orders/"), Wildcard]
  }

  lemma TrailingPattern()
    ensures Compile("/orders/{secret}") == TrailingTokens()
  {
    TrailingSplit();
    TrailingTokenize();
  }

  lemma TrailingSplit()
    ensures Split("/orders/{secret}") == ["", "orders", "{secret}"]
  {
    var parts := ["", "orders", "{secret}"];
    assert Join(parts) == "/orders/{secret}";
    SplitOfJoin(parts);
  }

  lemma TrailingTokenize()
    ensures Tokenize(["", "orders", "{secret}"]) == TrailingTokens()
  {
    var parts := ["", "orders", "{secret}"];
    assert Compiled(parts, 1) == Builder([], "/");
    assert Compiled(parts, 2) == Builder([], "/orders/");
    assert Compiled(parts, 3) == Builder([Literal("/orders/"), Wildcard], "");
  }

  /**
    A trailing placeholder takes only up to the next '/': the rest of the
    path is carried over, not swallowed.
   */
  lemma TrailingPlaceholderStopsAtSlash()
    ensures Redact(TrailingTokens(), "/orders/XXX", "/orders/42/order/extra")
            == Success("/orders/XXX/order/extra")
  {
    var tokens, path := TrailingTokens(), "/orders/42/order/extra";
    assert tokens[0] == Literal("/orders/") && tokens[1] == Wildcard;
    assert RegionMatches(path, 0, "/orders/");
    IndexOfFinds(path, '/', 8, 10);
    assert Scan(tokens[1..], path, 8) == Consumed(10) by {
      assert tokens[1..][1..] == [];
    }
    assert Scan(tokens, path, 0) == Consumed(10);
    assert path[10..] == "/order/extra";
    assert "/orders/XXX" + path[10..] == "/orders/XXX/order/extra";
  }

  /** Only when no '/' follows does the trailing placeholder take the rest of the path. */
  lemma TrailingPlaceholderSwallowsEnd()
    ensures Redact(TrailingTokens(), "/orders/XXX", "/orders/42") == Success("/orders/XXX")
  {
    var tokens, path := TrailingTokens(), "/orders/42";
    assert RegionMatches(path, 0, "/orders/");
    assert IndexOf(path, '/', 8) == -1;
    assert Scan(tokens[1..], path, 8) == Swallowed;
  }

  /** The tokens of /a/{x}/{y}/b. */
  function AdjacentTokens(): seq<Token>
  {
    [Literal("/a/"), Wildcard, Literal("/"), Wildcard, Literal("/b")]
  }

  /** Two placeholders in a row are kept apart by a "/" literal. */
  lemma AdjacentPattern()
    ensures Compile("/a/{x}/{y}/b") == AdjacentTokens()
  {
    AdjacentSplit();
    AdjacentTokenize();
  }

  lemma AdjacentSplit()
    ensures Split("/a/{x}/{y}/b") == ["", "a", "{x}", "{y}", "b"]
  {
    var parts := ["", "a", "{x}", "{y}", "b"];
    assert Join(parts) == "/a/{x}/{y}/b";
    SplitOfJoin(parts);
  }

  lemma AdjacentTokenize()
    ensures Tokenize(["", "a", "{x}", "{y}", "b"]) == AdjacentTokens()
  {
    var parts := ["", "a", "{x}", "{y}", "b"];
    assert Compiled(parts, 2) == Builder([], "/a/") by {
      assert Compiled(parts, 1) == Builder([], "/");
    }
    assert Compiled(parts, 3) == Builder([Literal("/a/"), Wildcard], "/") by {
      assert IsPlaceholder(parts[2]);
      assert Absorb(Builder([], "/a/"), "{x}") == Builder([Literal("/a/"), Wildcard], "");
    }
    var both := [Literal("/a/"), Wildcard, Literal("/"), Wildcard];
    assert Compiled(parts, 4) == Builder(both, "/") by {
      assert IsPlaceholder(parts[3]);
      assert Absorb(Builder([Literal("/a/"), Wildcard], "/"), "{y}") == Builder(both, "");
    }
    assert Compiled(parts, 5) == Builder(both, "/b") by {
      assert !IsPlaceholder(parts[4]);
    }
  }

  /** Each wildcard is replaced on its own. */
  lemma AdjacentPlaceholdersFilter()
    ensures Redact(AdjacentTokens(), "/a/XXX/XXX/b", "/a/1/2/b") == Success("/a/XXX/XXX/b")
  {
    var tokens, path := AdjacentTokens(), "/a/1/2/b";
    assert tokens[0] == Literal("/a/") && tokens[1] == Wildcard && tokens[2] == Literal("/");
    assert tokens[3] == Wildcard && tokens[4] == Literal("/b");
    assert RegionMatches(path, 0, "/a/") && RegionMatches(path, 4, "/") && RegionMatches(path, 6, "/b");
    IndexOfFinds(path, '/', 3, 4);
    IndexOfFinds(path, '/', 5, 6);
    assert Scan(tokens[4..], path, 6) == Consumed(8) by {
      assert tokens[4..][1..] == [];
    }
    assert Scan(tokens[3..], path, 5) == Consumed(8) by {
      assert tokens[3..][1..] == tokens[4..];
    }
    assert Scan(tokens[2..], path, 4) == Consumed(8) by {
      assert tokens[2..][1..] == tokens[3..];
    }
    assert Scan(tokens[1..], path, 3) == Consumed(8) by {
      assert tokens[1..][1..] == tokens[2..];
    }
    assert Scan(tokens, path, 0) == Consumed(8);
    assert "/a/XXX/XXX/b" + path[8..] == "/a/XXX/XXX/b";
  }

  /** "", "/" and "//" compile to no token, and filtering then fails. */
  lemma EmptyPatterns(path: string)
    ensures Compile("") == [] && Compile("/") == [] && Compile("//") == []
    ensures Redact(Compile(""), "", path) == Failure(ArrayIndexOutOfBounds(0))
  {
    SplitCases();
    assert Compiled([""], 1) == Builder([], "");
  }
}
