/**
  Matching a path against compiled tokens: one forward scan with a cursor
  into the path, and the three possible answers (the path unchanged, the
  substitute, or the substitute followed by the unconsumed rest). These
  functions specify DefaultPathFilter.filter.
 */
module PathMatching {
  import opened JavaStrings
  import opened PathPattern

  /** How the scan ended. */
  datatype Outcome =
    | Mismatch              // a Literal was not found at the cursor
    | Consumed(cursor: nat) // every token was matched, ending at cursor
    | Swallowed             // a Wildcard found no further '/' and took the rest of the path

  /** The exception the Java class raises on an empty token array. */
  datatype Error = ArrayIndexOutOfBounds(index: int)

  datatype Result<T> = Success(value: T) | Failure(error: Error)

  /**
    The scan from cursor pos: a Literal must occur at the cursor and moves it
    past itself; a Wildcard moves it to the next '/' (which stays for the next
    token), or ends the scan when there is none. The cursor never moves back
    and never leaves the path.
   */
  function Scan(tokens: seq<Token>, path: string, pos: nat): (o: Outcome)
    requires pos <= |path|
    ensures o.Consumed? ==> pos <= o.cursor <= |path|
  {
    if tokens == [] then Consumed(pos)
    else match tokens[0]
      case Literal(text) =>
        if RegionMatches(path, pos, text) then Scan(tokens[1..], path, pos + |text|) else Mismatch
      case Wildcard =>
        var next := IndexOf(path, '/', pos);
        if next == -1 then Swallowed else Scan(tokens[1..], path, next)
  }

  /** How a scan goes on with more tokens once it has ended with o. */
  function Continue(o: Outcome, tokens: seq<Token>, path: string): Outcome
    requires o.Consumed? ==> o.cursor <= |path|
  {
    match o
    case Mismatch => Mismatch
    case Swallowed => Swallowed
    case Consumed(cursor) => Scan(tokens, path, cursor)
  }

  /** What filter returns: the original path, the substitute, or the substitute and the rest. */
  function Redact(tokens: seq<Token>, substitute: string, path: string): (r: Result<string>)
    ensures r.Failure? <==> tokens == []
  {
    if tokens == [] then Failure(ArrayIndexOutOfBounds(0))
    else match Scan(tokens, path, 0)
      case Mismatch => Success(path)
      case Swallowed => Success(substitute)
      case Consumed(cursor) => Success(substitute + path[cursor..])
  }

  /** Scanning two token lists in a row is scanning the first, then going on with the second. */
  lemma {:induction false} ScanAppend(first: seq<Token>, second: seq<Token>, path: string, pos: nat)
    requires pos <= |path|
    ensures Scan(first + second, path, pos) == Continue(Scan(first, path, pos), second, path)
  {
    if first == [] {
      assert first + second == second;
    } else {
      assert (first + second)[1..] == first[1..] + second;
      match first[0]
      case Literal(text) =>
        if RegionMatches(path, pos, text) {
          ScanAppend(first[1..], second, path, pos + |text|);
        }
      case Wildcard =>
        var next := IndexOf(path, '/', pos);
        if next != -1 {
          ScanAppend(first[1..], second, path, next);
        }
    }
  }

  /**
    A Literal missing at the cursor (too few characters left included) makes
    filter return the path unchanged, whatever tokens follow.
   */
  lemma LiteralMissingKeepsPath(before: seq<Token>, text: string, after: seq<Token>,
                                substitute: string, path: string, cursor: nat)
    requires Scan(before, path, 0) == Consumed(cursor)
    requires !RegionMatches(path, cursor, text)
    ensures Redact(before + [Literal(text)] + after, substitute, path) == Success(path)
  {
    ScanAppend(before, [Literal(text)] + after, path, 0);
    assert before + [Literal(text)] + after == before + ([Literal(text)] + after);
  }

  /**
    A Wildcard that finds no '/' at or after the cursor ends the scan: filter
    returns exactly the substitute, and the tokens after it are never checked.
   */
  lemma WildcardWithoutSlashGivesSubstitute(before: seq<Token>, after: seq<Token>,
                                            substitute: string, path: string, cursor: nat)
    requires Scan(before, path, 0) == Consumed(cursor)
    requires forall k :: cursor <= k < |path| ==> path[k] != '/'
    ensures Redact(before + [Wildcard] + after, substitute, path) == Success(substitute)
  {
    ScanAppend(before, [Wildcard] + after, path, 0);
    assert before + [Wildcard] + after == before + ([Wildcard] + after);
  }

  /** A scan that does not fail leaves filter's answer starting with the substitute. */
  lemma MatchStartsWithSubstitute(tokens: seq<Token>, substitute: string, path: string)
    requires tokens != [] && !Scan(tokens, path, 0).Mismatch?
    ensures Redact(tokens, substitute, path).Success?
    ensures substitute <= Redact(tokens, substitute, path).value
    ensures Redact(tokens, substitute, path).value == substitute <==>
            Scan(tokens, path, 0).Swallowed? || Scan(tokens, path, 0).cursor == |path|
  {
  }

  /**
    Every Wildcard that is not last is followed by a Literal starting with '/':
    the part of WellFormed (Alternating and the first half of SlashBordered)
    the scan relies on, in a recursive form that exists only for the induction
    in ScanSpelled. WellFormedAnchored bridges the two.
   */
  ghost predicate Anchored(tokens: seq<Token>)
  {
    tokens == [] ||
    ((tokens[0].Wildcard? && |tokens| > 1 ==>
        tokens[1].Literal? && tokens[1].text != "" && tokens[1].text[0] == '/')
     && Anchored(tokens[1..]))
  }

  lemma {:induction false} WellFormedAnchored(tokens: seq<Token>)
    requires WellFormed(tokens)
    ensures Anchored(tokens)
  {
    if tokens != [] {
      var tail := tokens[1..];
      assert WellFormed(tail) by {
        assert forall k :: 0 <= k < |tail| ==> tail[k] == tokens[k + 1];
      }
      WellFormedAnchored(tail);
      if |tokens| > 1 {
        assert tokens[0].Literal? != tokens[1].Literal?;
      }
    }
  }

  /**
    No fill holds a '/': each stands for one path segment. The recursive form
    of `forall f :: f in fills ==> '/' !in f`, kept only for the induction in
    ScanSpelled; SlashFreeMembers bridges the two.
   */
  ghost predicate SlashFree(fills: seq<string>)
  {
    fills == [] || ('/' !in fills[0] && SlashFree(fills[1..]))
  }

  lemma {:induction false} SlashFreeMembers(fills: seq<string>)
    requires forall f :: f in fills ==> '/' !in f
    ensures SlashFree(fills)
  {
    if fills != [] {
      assert fills[0] in fills;
      assert forall f :: f in fills[1..] ==> f in fills;
      SlashFreeMembers(fills[1..]);
    }
  }

  /**
    The path from pos reads as the tokens' text, with fills[i] in the place
    of the i-th Wildcard, followed by rest; stated token by token.
   */
  ghost predicate Spells(tokens: seq<Token>, fills: seq<string>, path: string, pos: nat, rest: string)
    requires WildcardCount(tokens) == |fills|
  {
    pos <= |path| &&
    if tokens == [] then path[pos..] == rest
    else match tokens[0]
      case Literal(text) =>
        RegionMatches(path, pos, text) && Spells(tokens[1..], fills, path, pos + |text|, rest)
      case Wildcard =>
        RegionMatches(path, pos, fills[0]) && Spells(tokens[1..], fills[1..], path, pos + |fills[0]|, rest)
  }

  /** A path that is the rendered text followed by rest is spelled by the tokens. */
  lemma {:induction false} RenderedSpells(tokens: seq<Token>, fills: seq<string>, path: string, pos: nat, rest: string)
    requires WildcardCount(tokens) == |fills|
    requires pos <= |path| && path[pos..] == Render(tokens, fills) + rest
    ensures Spells(tokens, fills, path, pos, rest)
  {
    if tokens != [] && tokens[0].Literal? {
      var text, after := tokens[0].text, Render(tokens[1..], fills) + rest;
      assert path[pos..] == text + after;
      SplitAt(path, pos, text, after);
      RenderedSpells(tokens[1..], fills, path, pos + |text|, rest);
    } else if tokens != [] {
      var fill, after := fills[0], Render(tokens[1..], fills[1..]) + rest;
      assert path[pos..] == fill + after;
      SplitAt(path, pos, fill, after);
      RenderedSpells(tokens[1..], fills[1..], path, pos + |fill|, rest);
    }
  }

  /** Text followed by more text at pos: the first is found at pos, the second after it. */
  lemma SplitAt(path: string, pos: nat, head: string, after: string)
    requires pos <= |path| && path[pos..] == head + after
    ensures RegionMatches(path, pos, head) && path[pos + |head|..] == after
  {
    assert path[pos..pos + |head|] == path[pos..][..|head|];
    assert path[pos + |head|..] == path[pos..][|head|..];
  }

  /**
    What a Wildcard's fill is followed by in a spelled path: a '/' (the next
    Literal's first character, or the first character of rest), or the end
    of the path when nothing follows.
   */
  lemma SlashOrEnd(tokens: seq<Token>, fills: seq<string>, path: string, pos: nat, rest: string)
    requires tokens == [] || (tokens[0].Literal? && tokens[0].text != "" && tokens[0].text[0] == '/')
    requires WildcardCount(tokens) == |fills| && Spells(tokens, fills, path, pos, rest)
    requires rest == [] || rest[0] == '/'
    ensures if tokens == [] && rest == [] then pos == |path| else pos < |path| && path[pos] == '/'
  {
    if tokens == [] {
      assert |path[pos..]| == |rest|;
      if rest != [] {
        assert path[pos] == path[pos..][0];
      }
    } else {
      var text := tokens[0].text;
      assert path[pos..pos + |text|][0] == path[pos];
    }
  }

  /** A Wildcard at pos, before a slash-free fill, stops at the '/' after it or finds none. */
  lemma WildcardStep(path: string, pos: nat, fill: string)
    requires RegionMatches(path, pos, fill) && '/' !in fill
    ensures var next := IndexOf(path, '/', pos);
      if pos + |fill| < |path| && path[pos + |fill|] == '/' then next == pos + |fill|
      else pos + |fill| == |path| ==> next == -1
  {
    assert forall k :: pos <= k < pos + |fill| ==> path[k] == path[pos..pos + |fill|][k - pos];
    if pos + |fill| < |path| && path[pos + |fill|] == '/' {
      IndexOfFinds(path, '/', pos, pos + |fill|);
    }
  }

  /**
    Scanning a path the tokens spell: the scan consumes all but rest when
    rest is empty or starts with '/', and may swallow the path's end when
    rest is empty.
   */
  lemma {:induction false} ScanSpelled(tokens: seq<Token>, fills: seq<string>, path: string, pos: nat, rest: string)
    requires Anchored(tokens) && WildcardCount(tokens) == |fills|
    requires SlashFree(fills)
    requires rest == [] || rest[0] == '/'
    requires Spells(tokens, fills, path, pos, rest)
    ensures |rest| <= |path|
    ensures var o := Scan(tokens, path, pos);
      o == Consumed(|path| - |rest|) || (rest == [] && o == Swallowed)
  {
    if tokens == [] {
      assert |path[pos..]| == |rest|;
    } else if tokens[0].Literal? {
      ScanSpelled(tokens[1..], fills, path, pos + |tokens[0].text|, rest);
    } else {
      var fill := fills[0];
      SlashOrEnd(tokens[1..], fills[1..], path, pos + |fill|, rest);
      WildcardStep(path, pos, fill);
      ScanSpelled(tokens[1..], fills[1..], path, pos + |fill|, rest);
    }
  }

  /**
    Exactness: when the path is the text the compiled tokens describe, with a
    slash-free value in each wildcard position, possibly followed by a suffix
    starting with '/', filter returns the substitute followed by that suffix.
   */
  lemma RedactRendered(tokens: seq<Token>, replacement: string, fills: seq<string>, rest: string)
    requires tokens != [] && WellFormed(tokens) && WildcardCount(tokens) == |fills|
    requires forall f :: f in fills ==> '/' !in f
    requires rest == [] || rest[0] == '/'
    ensures Redact(tokens, Substitute(tokens, replacement), Render(tokens, fills) + rest)
            == Success(Substitute(tokens, replacement) + rest)
  {
    var path := Render(tokens, fills) + rest;
    WellFormedAnchored(tokens);
    SlashFreeMembers(fills);
    RenderedSpells(tokens, fills, path, 0, rest);
    ScanSpelled(tokens, fills, path, 0, rest);
    assert path[|path| - |rest|..] == rest;
    if rest == [] {
      assert Substitute(tokens, replacement) + rest == Substitute(tokens, replacement);
    }
  }

  /** A single Literal token filters every path to an equal string. */
  lemma LiteralFilterIsIdentity(text: string, path: string)
    ensures Redact([Literal(text)], text, path) == Success(path)
  {
    if RegionMatches(path, 0, text) {
      assert [Literal(text)][1..] == [];
      assert Scan([Literal(text)], path, 0) == Consumed(|text|);
      assert path == text + path[|text|..];
    }
  }
}
