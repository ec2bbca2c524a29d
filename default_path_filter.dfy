/**
  The path filter object: compiled once from a replacement and a path
  expression, then asked to filter many paths. Its two fields are final, so
  they are constant fields here; the constructor and Filter are proved
  against the functions of PathPattern and PathMatching.
 */
module PathFilter {
  import opened JavaStrings
  import opened PathPattern
  import opened PathMatching

  class DefaultPathFilter {
    /** The compiled tokens; the Java class's null array entries are Wildcards. */
    const filter: seq<Token>
    /** The output for a path that matches to its end. */
    const substitute: string

    /** The constructor's arguments, kept only to state what the fields are. */
    ghost const replacement: string
    ghost const pathExpression: string

    ghost predicate Valid()
    {
      && filter == Compile(pathExpression)
      && substitute == Substitute(filter, replacement)
    }

    constructor (replacement: string, pathExpression: string)
      ensures this.replacement == replacement && this.pathExpression == pathExpression
      ensures Valid()
    {
      var parts := Split(pathExpression);

      // concatenate the ordinary parts wherever possible
      var filterImpl: seq<Token> := [];
      var builder: string := "";
      for i := 0 to |parts|
        invariant Builder(filterImpl, builder) == Compiled(parts, i)
      {
        var part := parts[i];
        if IsPlaceholder(part) {
          if |builder| > 0 {
            filterImpl := filterImpl + [Literal(builder)];
            builder := "";
          }
          filterImpl := filterImpl + [Wildcard];
        } else {
          builder := builder + part;
        }
        if i + 1 < |parts| {
          builder := builder + "/";
        }
      }
      if |builder| > 0 {
        filterImpl := filterImpl + [Literal(builder)];
      }

      var substituteBuilder: string := "";
      for k := 0 to |filterImpl|
        invariant substituteBuilder == Substitute(filterImpl[..k], replacement)
      {
        assert filterImpl[..k + 1][..k] == filterImpl[..k];
        match filterImpl[k]
        case Wildcard =>
          substituteBuilder := substituteBuilder + replacement;
        case Literal(text) =>
          substituteBuilder := substituteBuilder + text;
      }
      assert filterImpl[..|filterImpl|] == filterImpl;

      this.filter := filterImpl;
      this.substitute := substituteBuilder;
      this.replacement := replacement;
      this.pathExpression := pathExpression;
    }

    /**
      The path with its wildcard segments replaced, or the path itself when a
      literal is missing. With no tokens at all the Java class's first array access
      fails; that is the Failure result.
     */
    method Filter(path: string) returns (r: Result<string>)
      ensures r == Redact(filter, substitute, path)
      ensures Valid() ==>
        r == Redact(Compile(pathExpression), Substitute(Compile(pathExpression), replacement), path)
    {
      // the do-while loop reads filter[0] before any test
      if |filter| == 0 {
        return Failure(ArrayIndexOutOfBounds(0));
      }
      var filterIndex: nat := 0;
      var previousIndex: nat := 0;
      while filterIndex < |filter|
        invariant filterIndex <= |filter|
        invariant previousIndex <= |path|
        invariant Scan(filter, path, 0) == Scan(filter[filterIndex..], path, previousIndex)
      {
        assert filter[filterIndex..][1..] == filter[filterIndex + 1..];
        match filter[filterIndex]
        case Literal(text) =>
          // the path must match on the literal text
          if !RegionMatches(path, previousIndex, text) {
            assert Scan(filter, path, 0) == Mismatch;
            return Success(path);
          }
          assert Scan(filter[filterIndex..], path, previousIndex)
              == Scan(filter[filterIndex + 1..], path, previousIndex + |text|);
          previousIndex := previousIndex + |text|;
          filterIndex := filterIndex + 1;
        case Wildcard =>
          // locate the next slash
          var nextIndex := IndexOf(path, '/', previousIndex);
          if nextIndex != -1 {
            assert Scan(filter[filterIndex..], path, previousIndex)
                == Scan(filter[filterIndex + 1..], path, nextIndex);
            previousIndex := nextIndex;
          } else {
            assert Scan(filter, path, 0) == Swallowed;
            previousIndex := |path|;
            break;
          }
          filterIndex := filterIndex + 1;
      }
      assert filterIndex == |filter| ==> filter[filterIndex..] == [];
      assert Scan(filter, path, 0) == Swallowed || Scan(filter, path, 0) == Consumed(previousIndex);
      if previousIndex == |path| {
        assert substitute + path[previousIndex..] == substitute;
        return Success(substitute);
      }
      return Success(substitute + path[previousIndex..]);
    }
  }

  /**
    The filter matches its own pattern: the split parts of the expression,
    joined again with each placeholder in place, filter to the substitute.
   */
  lemma PatternTextFiltersToSubstitute(pathExpression: string, replacement: string)
    requires Compile(pathExpression) != []
    ensures var tokens := Compile(pathExpression);
      Redact(tokens, Substitute(tokens, replacement), Join(Split(pathExpression)))
        == Success(Substitute(tokens, replacement))
  {
    var parts := Split(pathExpression);
    var tokens := Tokenize(parts);
    TokenizeRoundTrip(parts);
    TokenizeWellFormed(parts);
    var fills := Placeholders(parts);
    assert forall f :: f in fills ==> '/' !in f;
    RedactRendered(tokens, replacement, fills, []);
    assert Render(tokens, fills) + [] == Join(parts);
    assert Substitute(tokens, replacement) + [] == Substitute(tokens, replacement);
  }

  /**
    A path expression without placeholders (and with some text) leaves every
    path as it is: the filter returns a string equal to its input.
   */
  lemma LiteralPatternKeepsEveryPath(pathExpression: string, replacement: string, path: string)
    requires forall p :: p in Split(pathExpression) ==> !IsPlaceholder(p)
    requires Join(Split(pathExpression)) != ""
    ensures var tokens := Compile(pathExpression);
      Redact(tokens, Substitute(tokens, replacement), path) == Success(path)
  {
    var text := Join(Split(pathExpression));
    LiteralPattern(Split(pathExpression));
    assert Compile(pathExpression) == [Literal(text)];
    assert [Literal(text)][..0] == [];
    assert Substitute([Literal(text)], replacement) == "" + text == text;
    LiteralFilterIsIdentity(text, path);
  }

  /**
    The filter fails on every path exactly when the expression compiles to no
    token: no placeholder and nothing but slashes ("", "/", "//").
   */
  lemma FilterFailsOnEmptyPattern(pathExpression: string, substitute: string, path: string)
    ensures var parts := Split(pathExpression);
      Redact(Compile(pathExpression), substitute, path).Failure? <==>
        Placeholders(parts) == [] && Join(parts) == ""
  {
    TokenizeEmpty(Split(pathExpression));
  }
}
