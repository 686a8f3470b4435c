/**
 * The field cleaners of the products service: `cleanProductName` (steps 1-5,
 * after HTML sanitising and NFC normalisation) and `cleanProductPrice`.
 */
module Cleaners {
  import opened Wrappers
  import opened Regex

  /** The text that path fragments and SQL keywords are replaced with. */
  const Removed: string := "[removed]"

  // ---------------------------------------------------------------------------
  // cleanProductName
  // ---------------------------------------------------------------------------

  /** Step 1: drop every character of the four emoji ranges. */
  function RemoveEmoji(s: string): (r: string)
    ensures forall c :: c in r <==> c in s && !IsEmoji(c)
    ensures r == Kept(s, Emoji)
  {
    CharClassRemoved(s, Emoji);
    CharClassFilters(s, Emoji);
    ReplaceAll(s, Emoji, [])
  }

  /** Step 2: drop every `(...)` group that closes on the same line, then trim. */
  function RemoveGroups(s: string): (r: string)
    ensures MatchFree(ParenGroup, r)
    ensures r == [] || (!IsSpace(r[0]) && !IsSpace(r[|r| - 1]))
  {
    var stripped := ReplaceAll(s, ParenGroup, []);
    ParenGroupsGone(s);
    TrimKeepsGroupFree(stripped);
    Trim(stripped)
  }

  /**
   * Step 3: replace `../` runs, `/etc/` paths and SQL keywords with the
   * placeholder, in that order. No keyword is left in the result, and
   * `DefuseLeavesNoPath` shows that no path fragment is either.
   */
  function Defuse(s: string): (r: string)
    ensures MatchFree(SqlKeyword, r)
  {
    var paths := ReplaceAll(ReplaceAll(s, DotDotSlashes, Removed), EtcPath, Removed);
    DefusedStaysDefused(s);
    ReplaceAll(paths, SqlKeyword, Removed)
  }

  /** Step 4: keep only the characters of the allow-list. */
  function KeepAllowed(s: string): (r: string)
    ensures forall c :: c in r <==> c in s && IsNameChar(c)
    ensures r == Kept(s, NameDisallowed)
  {
    CharClassRemoved(s, NameDisallowed);
    CharClassFilters(s, NameDisallowed);
    ReplaceAll(s, NameDisallowed, [])
  }

  /**
   * Step 5: turn every run of white space into one space, then trim. The
   * characters that are not white space all survive, in their order.
   */
  function CollapseSpaces(s: string): (r: string)
    ensures forall c :: c in r ==> c == ' ' || (c in s && !IsSpace(c))
    ensures r == [] || (!IsSpace(r[0]) && !IsSpace(r[|r| - 1]))
    ensures forall i, j :: 0 <= i < j < |r| && j == i + 1 ==> !(IsSpace(r[i]) && IsSpace(r[j]))
    ensures NonSpace(r) == NonSpace(s)
  {
    CollapseFacts(s);
    Trim(ReplaceAll(s, SpaceRun, " "))
  }

  /** The postconditions of `CollapseSpaces`, from the two stages' own facts. */
  lemma CollapseFacts(s: string)
    ensures var r := Trim(ReplaceAll(s, SpaceRun, " "));
      && (forall c :: c in r ==> c == ' ' || (c in s && !IsSpace(c)))
      && (forall i, j :: 0 <= i < j < |r| && j == i + 1 ==> !(IsSpace(r[i]) && IsSpace(r[j])))
      && NonSpace(r) == NonSpace(s)
  {
    var single := ReplaceAll(s, SpaceRun, " ");
    SpaceRunsCollapsed(s);
    TrimKeepsSingleSpaced(single);
    CollapseKeepsNonSpace(s);
    TrimKeepsNonSpace(single);
  }

  /** The characters of `s` that are not white space, in order. */
  function NonSpace(s: string): string {
    if s == [] then [] else (if IsSpace(s[0]) then [] else [s[0]]) + NonSpace(s[1..])
  }

  /**
   * Steps 1-5 of `cleanProductName`. The result holds only allow-listed
   * characters, does not start or end with a space and never has two spaces
   * in a row.
   */
  function CleanNameSteps(s: string): (r: string)
    ensures forall c :: c in r ==> IsNameChar(c)
    ensures r == [] || (r[0] != ' ' && r[|r| - 1] != ' ')
    ensures forall i, j :: 0 <= i < j < |r| && j == i + 1 ==> !(r[i] == ' ' && r[j] == ' ')
  {
    var allowed := KeepAllowed(Defuse(RemoveGroups(RemoveEmoji(s))));
    CollapseKeepsNameChars(allowed);
    CollapseSpaces(allowed)
  }

  /**
   * `cleanProductName`: `markup` stands for the HTML sanitiser followed by NFC
   * normalisation, which this model does not define. Whatever the sanitiser
   * returns, the name keeps only allow-listed characters, has no space at
   * either end and no two spaces in a row.
   */
  function CleanProductName(markup: string -> string, rawName: string): (r: string)
    ensures forall c :: c in r ==> IsNameChar(c)
    ensures r == [] || (r[0] != ' ' && r[|r| - 1] != ' ')
    ensures forall i, j :: 0 <= i < j < |r| && j == i + 1 ==> !(r[i] == ' ' && r[j] == ' ')
  {
    CleanNameSteps(markup(rawName))
  }

  // Facts behind the steps --------------------------------------------------

  /** A `(...)` group found in a prefix is still a group once more text follows. */
  lemma {:induction false} CloseParenExtends(t: string, u: string)
    requires CloseParen(t).Some?
    ensures CloseParen(t + u) == CloseParen(t)
  {
    assert (t + u)[0] == t[0];
    if t[0] != ')' {
      assert (t + u)[1..] == t[1..] + u;
      CloseParenExtends(t[1..], u);
    }
  }

  /** A `(...)` group at the start of a text survives appending more text. */
  lemma GroupExtends(t: string, u: string)
    ensures MatchLength(ParenGroup, t) > 0 ==> MatchLength(ParenGroup, t + u) > 0
  {
    if MatchLength(ParenGroup, t) > 0 {
      assert (t + u)[0] == t[0];
      assert (t + u)[1..] == t[1..] + u;
      CloseParenExtends(t[1..], u);
    }
  }

  /** `trim` returns a contiguous piece of its input. */
  lemma TrimIsInfix(s: string) returns (k: nat)
    ensures k + |Trim(s)| <= |s| && Trim(s) == s[k..k + |Trim(s)|]
  {
    var t := TrimStart(s);
    k := |s| - |t|;
    TrimStartSuffix(s);
    TrimEndPrefix(t);
    assert Trim(s) == t[..|Trim(s)|];
  }

  /** A piece cut out of group-free text is group-free. */
  lemma InfixGroupFree(s: string, k: nat, m: nat, t: string)
    requires k <= m <= |s| && t == s[k..m] && MatchFree(ParenGroup, s)
    ensures MatchFree(ParenGroup, t)
  {
    forall i | 0 <= i <= |t| ensures MatchLength(ParenGroup, t[i..]) == 0 {
      GroupExtends(t[i..], s[m..]);
      assert t[i..] + s[m..] == s[k + i..];
    }
  }

  /** Trimming cannot create a group, since it only cuts text off the ends. */
  lemma TrimKeepsGroupFree(s: string)
    requires MatchFree(ParenGroup, s)
    ensures MatchFree(ParenGroup, Trim(s))
  {
    var k := TrimIsInfix(s);
    InfixGroupFree(s, k, k + |Trim(s)|, Trim(s));
  }

  /** Every run of white space becomes exactly one space, and nothing else changes into white space. */
  lemma {:induction false} SpaceRunsCollapsed(s: string)
    ensures var t := ReplaceAll(s, SpaceRun, " ");
      && (forall c :: c in t ==> c == ' ' || (c in s && !IsSpace(c)))
      && (forall i, j :: 0 <= i < j < |t| && j == i + 1 ==> !(IsSpace(t[i]) && IsSpace(t[j])))
      && (t != [] ==> s != [] && (IsSpace(t[0]) <==> IsSpace(s[0])))
    decreases |s|
  {
    if s != [] {
      var t := ReplaceAll(s, SpaceRun, " ");
      var n := MatchLength(SpaceRun, s);
      if n > 0 {
        var t' := ReplaceAll(s[n..], SpaceRun, " ");
        SpaceRunsCollapsed(s[n..]);
        assert t == [' '] + t';
        assert forall c :: c in s[n..] ==> c in s;
        assert forall i :: 1 <= i < |t| ==> t[i] == t'[i - 1];
      } else {
        var t' := ReplaceAll(s[1..], SpaceRun, " ");
        SpaceRunsCollapsed(s[1..]);
        assert t == [s[0]] + t';
        assert forall c :: c in s[1..] ==> c in s;
        assert forall i :: 1 <= i < |t| ==> t[i] == t'[i - 1];
      }
    }
  }

  /** Trimming keeps a string free of adjacent white space. */
  lemma TrimKeepsSingleSpaced(s: string)
    requires forall i, j :: 0 <= i < j < |s| && j == i + 1 ==> !(IsSpace(s[i]) && IsSpace(s[j]))
    ensures var r := Trim(s); forall i, j :: 0 <= i < j < |r| && j == i + 1 ==> !(IsSpace(r[i]) && IsSpace(r[j]))
  {
    var k := TrimIsInfix(s);
    var r := Trim(s);
    assert forall i :: 0 <= i < |r| ==> r[i] == s[k + i];
  }

  /** Collapsing white space in allow-listed text gives allow-listed text with single inner spaces. */
  lemma CollapseKeepsNameChars(s: string)
    requires forall c :: c in s ==> IsNameChar(c)
    ensures var r := CollapseSpaces(s);
      && (forall c :: c in r ==> IsNameChar(c))
      && (r == [] || (r[0] != ' ' && r[|r| - 1] != ' '))
      && (forall i, j :: 0 <= i < j < |r| && j == i + 1 ==> !(r[i] == ' ' && r[j] == ' '))
  {
  }

  /** No match of a literal pattern can start inside the placeholder, whatever follows it. */
  lemma RemovedIsInert(p: Pattern)
    requires IsLiteralPattern(p)
    ensures forall i, tail :: 0 <= i < |Removed| ==> MatchLength(p, Removed[i..] + tail) == 0
  {
    forall i, tail | 0 <= i < |Removed| ensures MatchLength(p, Removed[i..] + tail) == 0 {
      var x := Removed[i..] + tail;
      assert x[0] == Removed[i];
      assert i + 1 < |Removed| ==> x[1] == Removed[i + 1];
      MatchBegins(p, x);
      KeywordHead(x);
    }
  }

  /** None of the three replacements of step 3 brings back what an earlier one removed. */
  lemma DefusedStaysDefused(s: string)
    ensures var dots := ReplaceAll(s, DotDotSlashes, Removed);
      var paths := ReplaceAll(dots, EtcPath, Removed);
      var r := ReplaceAll(paths, SqlKeyword, Removed);
      MatchFree(SqlKeyword, r) && MatchFree(DotDotSlashes, r) && MatchFree(EtcPath, r)
  {
    var dots := ReplaceAll(s, DotDotSlashes, Removed);
    var paths := ReplaceAll(dots, EtcPath, Removed);
    RemovedIsInert(DotDotSlashes);
    RemovedIsInert(EtcPath);
    RemovedIsInert(SqlKeyword);
    PlaceholderLeavesNoMatch(s, DotDotSlashes, Removed);
    PlaceholderKeepsFree(dots, DotDotSlashes, EtcPath, Removed);
    PlaceholderLeavesNoMatch(dots, EtcPath, Removed);
    PlaceholderLeavesNoMatch(paths, SqlKeyword, Removed);
    PlaceholderKeepsFree(paths, DotDotSlashes, SqlKeyword, Removed);
    PlaceholderKeepsFree(paths, EtcPath, SqlKeyword, Removed);
  }

  /**
   * Step 3 leaves no `../` run and no `/etc/` path: the keyword replacement
   * after the path replacements cannot bring one back.
   */
  lemma DefuseLeavesNoPath(s: string)
    ensures MatchFree(DotDotSlashes, Defuse(s)) && MatchFree(EtcPath, Defuse(s))
  {
    DefusedStaysDefused(s);
  }

  /** The two path replacements leave no `../` run and no `/etc/` path behind. */
  lemma PathsDefused(s: string)
    ensures MatchFree(DotDotSlashes, ReplaceAll(s, DotDotSlashes, Removed))
    ensures MatchFree(EtcPath, ReplaceAll(s, EtcPath, Removed))
  {
    RemovedIsInert(DotDotSlashes);
    PlaceholderLeavesNoMatch(s, DotDotSlashes, Removed);
    RemovedIsInert(EtcPath);
    PlaceholderLeavesNoMatch(s, EtcPath, Removed);
  }

  /** The non-white-space characters of a concatenation are those of its parts. */
  lemma {:induction false} NonSpaceAppend(x: string, y: string)
    ensures NonSpace(x + y) == NonSpace(x) + NonSpace(y)
    decreases |x|
  {
    if x == [] {
      assert x + y == y;
    } else {
      DropAppend(x, y, 1);
      assert (x + y)[0] == x[0];
      NonSpaceAppend(x[1..], y);
      Regroup(if IsSpace(x[0]) then [] else [x[0]], NonSpace(x[1..]), NonSpace(y));
    }
  }

  /** White space alone has no non-white-space characters. */
  lemma {:induction false} NonSpaceOfSpaces(w: string)
    requires forall i :: 0 <= i < |w| ==> IsSpace(w[i])
    ensures NonSpace(w) == []
    decreases |w|
  {
    if w != [] {
      assert forall i :: 0 <= i < |w[1..]| ==> w[1..][i] == w[i + 1];
      NonSpaceOfSpaces(w[1..]);
    }
  }

  /** Parts with the same non-white-space characters make wholes with the same ones. */
  lemma NonSpaceJoin(x: string, y: string, x': string, y': string)
    requires NonSpace(x) == NonSpace(x') && NonSpace(y) == NonSpace(y')
    ensures NonSpace(x + y) == NonSpace(x' + y')
  {
    NonSpaceAppend(x, y);
    NonSpaceAppend(x', y');
  }

  /** Collapsing white space keeps every other character, in order. */
  lemma {:induction false} CollapseKeepsNonSpace(s: string)
    ensures NonSpace(ReplaceAll(s, SpaceRun, " ")) == NonSpace(s)
    decreases |s|
  {
    if s != [] {
      var n := Span(s, IsSpace);
      SpaceRunLength(s);
      ReplaceAllStep(s, SpaceRun, " ");
      var k := if n > 0 then n else 1;
      var head: string := if n > 0 then " " else [s[0]];
      CollapseKeepsNonSpace(s[k..]);
      if n > 0 {
        NonSpaceOfSpaces(s[..k]);
        NonSpaceOfSpaces(" ");
      } else {
        assert s[..k] == head;
      }
      SplitAt(s, k);
      NonSpaceJoin(head, ReplaceAll(s[k..], SpaceRun, " "), s[..k], s[k..]);
    }
  }

  /** Dropping leading white space keeps the other characters. */
  lemma DropSpacesFront(s: string, k: nat)
    requires k <= |s| && forall i :: 0 <= i < k ==> IsSpace(s[i])
    ensures NonSpace(s[k..]) == NonSpace(s)
  {
    NonSpaceOfSpaces(s[..k]);
    NonSpaceAppend(s[..k], s[k..]);
    SplitAt(s, k);
  }

  /** Dropping trailing white space keeps the other characters. */
  lemma DropSpacesBack(s: string, k: nat)
    requires k <= |s| && forall i :: k <= i < |s| ==> IsSpace(s[i])
    ensures NonSpace(s[..k]) == NonSpace(s)
  {
    NonSpaceOfSpaces(s[k..]);
    NonSpaceAppend(s[..k], s[k..]);
    SplitAt(s, k);
  }

  /** Trimming only drops white space, so every other character stays, in order. */
  lemma TrimKeepsNonSpace(s: string)
    ensures NonSpace(Trim(s)) == NonSpace(s)
  {
    var t := TrimStart(s);
    TrimStartSuffix(s);
    TrimEndPrefix(t);
    DropSpacesFront(s, |s| - |t|);
    DropSpacesBack(t, |TrimEnd(t)|);
  }

  /** Collapsing white space in text ending in a non-space character keeps that character last. */
  lemma CollapseKeepsLast(a: string)
    requires a != [] && !IsSpace(a[|a| - 1])
    ensures var r := ReplaceAll(a, SpaceRun, " "); r != [] && r[|r| - 1] == a[|a| - 1]
  {
    var c := a[|a| - 1];
    var init := a[..|a| - 1];
    assert a == init + [c];
    SpaceRunSplit(init, [c]);
    Untouched([c], SpaceRun, " ");
  }

  /** Collapsing white space in text starting with a non-space character keeps that character first. */
  lemma CollapseKeepsFirst(b: string)
    requires b != [] && !IsSpace(b[0])
    ensures var r := ReplaceAll(b, SpaceRun, " "); r != [] && r[0] == b[0]
  {
    SpaceRunLength(b);
    ReplaceAllStep(b, SpaceRun, " ");
  }

  /**
   * A run of white space between two non-space characters becomes exactly one
   * space, and the text on either side is collapsed on its own.
   */
  lemma SpaceBetween(a: string, w: string, b: string)
    requires a != [] && !IsSpace(a[|a| - 1])
    requires b != [] && !IsSpace(b[0])
    requires w != [] && forall i :: 0 <= i < |w| ==> IsSpace(w[i])
    ensures CollapseSpaces(a + w + b) == CollapseSpaces(a) + " " + CollapseSpaces(b)
  {
    var ra := ReplaceAll(a, SpaceRun, " ");
    var rb := ReplaceAll(b, SpaceRun, " ");
    Regroup(a, w, b);
    SpaceRunSplit(a, w + b);
    SpaceRunSplit(w, b);
    SpaceRunLength(w);
    WholeMatchReplaced(w, SpaceRun, " ");
    Regroup(ra, " ", rb);
    CollapseKeepsLast(a);
    CollapseKeepsFirst(b);
    TrimAroundSpace(ra, rb);
  }

  /**
   * Step 2 removes a `(...)` group that closes on its line: text before it
   * without `(` is kept, and the scan goes on after it.
   */
  lemma GroupDropped(a: string, g: string, b: string)
    requires forall j :: 0 <= j < |a| ==> a[j] != '('
    requires forall j :: 0 <= j < |g| ==> g[j] != ')' && !IsLineTerminator(g[j])
    ensures RemoveGroups(a + "(" + g + ")" + b) == Trim(a + ReplaceAll(b, ParenGroup, []))
  {
    GroupRemovedInPlace(a, g, b);
  }

  /**
   * Step 3 replaces a keyword match in place: text of quiet characters around
   * it, in which no other keyword match starts, is kept as it is.
   */
  lemma KeywordReplacedInPlace(a: string, m: string, b: string)
    requires forall c :: c in a + m + b ==> Quiet(c)
    requires forall i :: 0 <= i < |a| ==> MatchLength(SqlKeyword, (a + m + b)[i..]) == 0
    requires 0 < MatchLength(SqlKeyword, m + b) == |m|
    requires MatchFree(SqlKeyword, b)
    ensures Defuse(a + m + b) == a + Removed + b
  {
    QuietPaths(a + m + b);
    MatchReplacedInPlace(a, m, b, SqlKeyword, Removed);
  }

  /** Step 2 is idempotent. */
  lemma RemoveGroupsIdempotent(s: string)
    ensures RemoveGroups(RemoveGroups(s)) == RemoveGroups(s)
  {
    var r := RemoveGroups(s);
    ReplaceAllUnmatched(r, ParenGroup, []);
    TrimUntouched(r);
  }

  /** A character that steps 1-3 do not react to on its own. */
  predicate Quiet(c: char) {
    !IsEmoji(c) && c != '(' && c != '.' && c != '/'
  }

  /** Steps 1 and 2 leave trimmed text of quiet characters alone. */
  lemma QuietEarlySteps(s: string)
    requires forall c :: c in s ==> Quiet(c)
    requires s == [] || (!IsSpace(s[0]) && !IsSpace(s[|s| - 1]))
    ensures RemoveGroups(RemoveEmoji(s)) == s
  {
    assert forall c :: c in s ==> !CanStart(Emoji, c) && !CanStart(ParenGroup, c);
    Untouched(s, Emoji, []);
    Untouched(s, ParenGroup, []);
    TrimUntouched(s);
  }

  /** The path half of step 3 leaves text of quiet characters alone. */
  lemma QuietPaths(s: string)
    requires forall c :: c in s ==> Quiet(c)
    ensures ReplaceAll(ReplaceAll(s, DotDotSlashes, Removed), EtcPath, Removed) == s
  {
    assert forall c :: c in s ==> !CanStart(DotDotSlashes, c) && !CanStart(EtcPath, c);
    Untouched(s, DotDotSlashes, Removed);
    Untouched(s, EtcPath, Removed);
  }

  /** Capitals and spaces are quiet, and only the spaces among them are white space. */
  lemma CapitalsQuiet(s: string)
    requires forall c :: c in s ==> IsUpper(c) || c == ' '
    ensures forall c :: c in s ==> Quiet(c)
    ensures s != [] && s[0] != ' ' && s[|s| - 1] != ' ' ==> !IsSpace(s[0]) && !IsSpace(s[|s| - 1])
  {
    if s != [] {
      assert s[0] in s && s[|s| - 1] in s;
    }
  }

  /** Step 5 leaves text without white space alone. */
  lemma SpacelessCollapse(s: string)
    requires forall c :: c in s ==> !IsSpace(c)
    ensures CollapseSpaces(s) == s
  {
    Untouched(s, SpaceRun, " ");
    if s != [] {
      assert s[0] in s && s[|s| - 1] in s;
    }
    TrimUntouched(s);
  }

  /** The allow-list strips disallowed characters around a word of allowed ones. */
  lemma EnclosingDropped(open: char, w: string, close: char)
    requires !IsNameChar(open) && !IsNameChar(close)
    requires forall c :: c in w ==> IsNameChar(c)
    ensures KeepAllowed([open] + w + [close]) == w
  {
    Untouched(w, NameDisallowed, []);
    CharClassDropsAll([open], NameDisallowed);
    CharClassDropsAll([close], NameDisallowed);
    CharClassAppend([open], w, NameDisallowed);
    CharClassAppend([open] + w, [close], NameDisallowed);
  }

  /** The placeholder loses its brackets to the allow-list. */
  lemma PlaceholderLosesBrackets()
    ensures KeepAllowed(Removed) == "removed"
  {
    EnclosingDropped('[', "removed", ']');
    assert Removed == ['['] + "removed" + [']'];
  }

  /** The bare word `removed` is left alone by the white-space collapse. */
  lemma RemovedWordSettled()
    ensures CollapseSpaces("removed") == "removed"
  {
    SpacelessCollapse("removed");
  }

  /** Steps 1-3 turn a name that is one keyword match into the placeholder. */
  lemma LoneKeywordDefused(k: string)
    requires 0 < MatchLength(SqlKeyword, k) == |k|
    requires forall c :: c in k ==> IsUpper(c) || c == ' '
    requires k[0] != ' ' && k[|k| - 1] != ' '
    ensures Defuse(RemoveGroups(RemoveEmoji(k))) == Removed
  {
    CapitalsQuiet(k);
    QuietEarlySteps(k);
    QuietPaths(k);
    WholeMatchReplaced(k, SqlKeyword, Removed);
  }

  /**
   * A name that is one keyword match from end to end, made of capitals and
   * inner spaces, comes out as the bare word `removed`.
   */
  lemma LoneKeyword(k: string)
    requires 0 < MatchLength(SqlKeyword, k) == |k|
    requires forall c :: c in k ==> IsUpper(c) || c == ' '
    requires k[0] != ' ' && k[|k| - 1] != ' '
    ensures CleanNameSteps(k) == "removed"
  {
    LoneKeywordDefused(k);
    PlaceholderLosesBrackets();
    RemovedWordSettled();
  }

  /** Steps 1-3 leave a keyword split by a quiet character alone when no keyword is left in it. */
  lemma SplitKeywordDefused(a: string, m: char, b: string)
    requires Quiet(m) && !IsSpace(m)
    requires forall c :: c in a + b ==> IsUpper(c)
    requires MatchFree(SqlKeyword, a + [m] + b)
    ensures Defuse(RemoveGroups(RemoveEmoji(a + [m] + b))) == a + [m] + b
  {
    var s := a + [m] + b;
    assert forall c :: c in s ==> c == m || c in a + b;
    assert s != [] ==> s[0] in s && s[|s| - 1] in s;
    QuietEarlySteps(s);
    QuietPaths(s);
    ReplaceAllUnmatched(s, SqlKeyword, Removed);
  }

  /** The allow-list deletes the splitting character. */
  lemma SplitKeywordJoined(a: string, m: char, b: string)
    requires !IsNameChar(m)
    requires forall c :: c in a ==> IsNameChar(c)
    requires forall c :: c in b ==> IsNameChar(c)
    ensures KeepAllowed(a + [m] + b) == a + b
  {
    Untouched(a, NameDisallowed, []);
    Untouched(b, NameDisallowed, []);
    CharClassDropsAll([m], NameDisallowed);
    CharClassAppend(a, [m], NameDisallowed);
    assert a + [] == a;
    assert ReplaceAll(a + [m], NameDisallowed, []) == a;
    CharClassAppend(a + [m], b, NameDisallowed);
    assert ReplaceAll(a + [m] + b, NameDisallowed, []) == a + b;
  }

  /** A keyword split by a quiet, disallowed character, and holding no keyword, comes out joined. */
  lemma SplitKeywordCleaned(a: string, m: char, b: string)
    requires !IsNameChar(m) && Quiet(m) && !IsSpace(m)
    requires forall c :: c in a + b ==> IsUpper(c)
    requires MatchFree(SqlKeyword, a + [m] + b)
    ensures CleanNameSteps(a + [m] + b) == a + b
  {
    SplitKeywordDefused(a, m, b);
    assert forall c :: c in a ==> c in a + b;
    assert forall c :: c in b ==> c in a + b;
    SplitKeywordJoined(a, m, b);
    LettersAreNotSpace(a + b);
    SpacelessCollapse(a + b);
  }

  /**
   * The allow-list runs after the keyword filter, so deleting a disallowed
   * character can put a keyword back together: a keyword split by one such
   * character comes out whole, and cleaning it again removes it. Cleaning is
   * therefore not idempotent.
   */
  lemma KeywordReassembled(a: string, m: char, b: string)
    requires !IsNameChar(m) && Quiet(m) && !IsSpace(m)
    requires 0 < MatchLength(SqlKeyword, a + b) == |a + b|
    requires forall c :: c in a + b ==> IsUpper(c)
    requires MatchFree(SqlKeyword, a + [m] + b)
    ensures CleanNameSteps(a + [m] + b) == a + b
    ensures CleanNameSteps(CleanNameSteps(a + [m] + b)) == "removed"
  {
    SplitKeywordCleaned(a, m, b);
    var k := a + b;
    assert k[0] in k && k[|k| - 1] in k;
    LoneKeyword(k);
  }

  /**
   * A name the steps have nothing to act on is its own cleaned form:
   * allow-listed characters without `(`, `.` or `/`, no space at either end,
   * never two spaces in a row, and no keyword.
   */
  lemma CleanNameFixpoint(s: string)
    requires forall c :: c in s ==> IsNameChar(c) && c != '(' && c != '.' && c != '/'
    requires s == [] || (s[0] != ' ' && s[|s| - 1] != ' ')
    requires forall i, j :: 0 <= i < j < |s| && j == i + 1 ==> !(s[i] == ' ' && s[j] == ' ')
    requires MatchFree(SqlKeyword, s)
    ensures CleanNameSteps(s) == s
  {
    EarlyStepsSettled(s);
    LateStepsSettled(s);
    SingleSpacedCollapse(s);
    SettledChain(s);
  }

  /** Allow-listed characters other than `(`, `.` and `/` are quiet, and only the space among them is white space. */
  lemma QuietName(s: string)
    requires forall c :: c in s ==> IsNameChar(c) && c != '(' && c != '.' && c != '/'
    ensures forall c :: c in s ==> Quiet(c)
    ensures s != [] && s[0] != ' ' && s[|s| - 1] != ' ' ==> !IsSpace(s[0]) && !IsSpace(s[|s| - 1])
  {
    assert s != [] ==> s[0] in s && s[|s| - 1] in s;
  }

  /** Steps 1 and 2 leave alone a trimmed name without emoji and without `(`. */
  lemma EarlyStepsSettled(s: string)
    requires forall c :: c in s ==> IsNameChar(c) && c != '(' && c != '.' && c != '/'
    requires s == [] || (s[0] != ' ' && s[|s| - 1] != ' ')
    ensures RemoveGroups(RemoveEmoji(s)) == s
  {
    QuietName(s);
    QuietEarlySteps(s);
  }

  /** Steps 3 and 4 leave alone allow-listed text without `.`, `/` or a keyword. */
  lemma LateStepsSettled(s: string)
    requires forall c :: c in s ==> IsNameChar(c) && c != '(' && c != '.' && c != '/'
    requires MatchFree(SqlKeyword, s)
    ensures Defuse(s) == s && KeepAllowed(s) == s
  {
    QuietName(s);
    DefuseSettled(s);
    KeepAllowedSettled(s);
  }

  /** Steps that each leave a text alone leave it alone one after the other. */
  lemma SettledChain(s: string)
    requires RemoveGroups(RemoveEmoji(s)) == s
    requires Defuse(s) == s && KeepAllowed(s) == s && CollapseSpaces(s) == s
    ensures CleanNameSteps(s) == s
  {
  }

  /** Step 3 leaves alone quiet text without a keyword. */
  lemma DefuseSettled(s: string)
    requires forall c :: c in s ==> Quiet(c)
    requires MatchFree(SqlKeyword, s)
    ensures Defuse(s) == s
  {
    QuietPaths(s);
    ReplaceAllUnmatched(s, SqlKeyword, Removed);
  }

  /** Step 4 leaves allow-listed text alone. */
  lemma KeepAllowedSettled(s: string)
    requires forall c :: c in s ==> IsNameChar(c)
    ensures KeepAllowed(s) == s
  {
    Untouched(s, NameDisallowed, []);
  }

  /** Step 5 leaves alone allow-listed text with single inner spaces and none at the ends. */
  lemma SingleSpacedCollapse(s: string)
    requires forall c :: c in s ==> IsNameChar(c)
    requires s == [] || (s[0] != ' ' && s[|s| - 1] != ' ')
    requires forall i, j :: 0 <= i < j < |s| && j == i + 1 ==> !(s[i] == ' ' && s[j] == ' ')
    ensures CollapseSpaces(s) == s
  {
    assert forall i :: 0 <= i < |s| ==> s[i] in s;
    SingleSpacedSettled(s);
    TrimUntouched(s);
  }

  /**
   * Cleaning a cleaned name again changes nothing unless the first pass left
   * a `(`, `.`, `/` or a keyword in it (compare `KeywordReassembled`).
   */
  lemma CleanAgainSettled(s: string)
    requires forall c :: c in CleanNameSteps(s) ==> c != '(' && c != '.' && c != '/'
    requires MatchFree(SqlKeyword, CleanNameSteps(s))
    ensures CleanNameSteps(CleanNameSteps(s)) == CleanNameSteps(s)
  {
    CleanNameFixpoint(CleanNameSteps(s));
  }

  // ---------------------------------------------------------------------------
  // cleanProductPrice
  // ---------------------------------------------------------------------------

  /** `rawPrice.replace(/[^0-9.]/g, '').trim()`: the digits and dots of the input, in order. */
  function PriceText(raw: string): (r: string)
    ensures forall c :: c in r <==> c in raw && IsPriceChar(c)
    ensures r == Kept(raw, PriceDisallowed)
  {
    var kept := ReplaceAll(raw, PriceDisallowed, []);
    CharClassRemoved(raw, PriceDisallowed);
    CharClassFilters(raw, PriceDisallowed);
    assert kept != [] ==> kept[0] in kept && kept[|kept| - 1] in kept;
    TrimUntouched(kept);
    Trim(kept)
  }

  function DigitValue(c: char): nat
    requires IsDigit(c)
  {
    c as int - '0' as int
  }

  /** The number a run of decimal digits denotes. */
  function DigitsValue(s: string): nat
    requires forall c :: c in s ==> IsDigit(c)
  {
    if s == [] then 0 else DigitsValue(s[..|s| - 1]) * 10 + DigitValue(s[|s| - 1])
  }

  function Pow10(n: nat): (r: nat)
    ensures r >= 1
  {
    if n == 0 then 1 else 10 * Pow10(n - 1)
  }

  /** The value of the numeral `w.f`, or of `w` alone when `f` is empty. */
  function Decimal(w: string, f: string): (v: real)
    requires forall c :: c in w ==> IsDigit(c)
    requires forall c :: c in f ==> IsDigit(c)
    ensures v >= 0.0
  {
    if f == [] then DigitsValue(w) as real
    else DigitsValue(w) as real + DigitsValue(f) as real / Pow10(|f|) as real
  }

  /**
   * `parseFloat` on text made only of digits and dots: the exact value of the
   * longest prefix of the form `digits[.digits]`, or NaN (None) when that
   * prefix holds no digit.
   */
  function ParseFloat(s: string): (r: Option<real>)
    requires forall c :: c in s ==> IsPriceChar(c)
    ensures r.Some? ==> r.value >= 0.0
    ensures r.None? <==> s == [] || (s[0] == '.' && (|s| == 1 || !IsDigit(s[1])))
  {
    assert s != [] ==> s[0] in s;
    var whole := Span(s, IsDigit);
    var rest := s[whole..];
    var fraction := if rest != [] && rest[0] == '.' then rest[1..][..Span(rest[1..], IsDigit)] else [];
    assert whole == 0 && s != [] ==> !IsDigit(s[0]) && IsPriceChar(s[0]);
    assert whole == 0 && s != [] ==> rest == s && s[0] == '.';
    assert |s| > 1 ==> s[1..][0] == s[1];
    if whole == 0 && fraction == [] then None
    else Some(Decimal(s[..whole], fraction))
  }

  /**
   * `cleanProductPrice`: the parsed price, or 0 when nothing parses. The HTML
   * sanitiser in between has nothing to act on in a string of digits and dots.
   */
  function CleanProductPrice(rawPrice: string): (price: real)
    ensures price >= 0.0
  {
    var text := PriceText(rawPrice);
    match ParseFloat(text)
    case Some(v) => if v >= 0.0 then v else 0.0
    case None => 0.0
  }

  /** The decimal numeral of `n`, without leading zeros. */
  function Numeral(n: nat): (s: string)
    ensures s != [] && forall c :: c in s ==> IsDigit(c)
  {
    var last := ['0' + ((n % 10) as char)];
    if n < 10 then last else Numeral(n / 10) + last
  }

  lemma {:induction false} NumeralValue(n: nat)
    ensures DigitsValue(Numeral(n)) == n
  {
    var s := Numeral(n);
    if n >= 10 {
      NumeralValue(n / 10);
      assert s[..|s| - 1] == Numeral(n / 10);
    }
  }

  /** Text without digits parses to nothing, so the price defaults to 0. */
  lemma NoDigitsNoPrice(rawPrice: string)
    requires forall c :: c in rawPrice ==> !IsDigit(c)
    ensures CleanProductPrice(rawPrice) == 0.0
  {
    var text := PriceText(rawPrice);
    assert Span(text, IsDigit) == 0;
    if text != [] && |text| > 1 {
      assert text[1] in text;
    }
  }

  /** Text made only of digits and dots is its own price text. */
  lemma PriceTextOfPriceChars(t: string)
    requires forall c :: c in t ==> IsPriceChar(c)
    ensures PriceText(t) == t
  {
    Untouched(t, PriceDisallowed, []);
    if t != [] {
      assert t[0] in t && t[|t| - 1] in t;
    }
    TrimUntouched(t);
  }

  /**
   * Characters other than digits and dots around a price, such as a currency
   * sign or a unit, do not change it.
   */
  lemma PriceIgnoresNoise(prefix: string, t: string, suffix: string)
    requires forall c :: c in prefix ==> !IsPriceChar(c)
    requires forall c :: c in suffix ==> !IsPriceChar(c)
    requires forall c :: c in t ==> IsPriceChar(c)
    ensures CleanProductPrice(prefix + t + suffix) == CleanProductPrice(t)
  {
    CharClassDropsAll(prefix, PriceDisallowed);
    CharClassDropsAll(suffix, PriceDisallowed);
    Untouched(t, PriceDisallowed, []);
    CharClassAppend(prefix, t, PriceDisallowed);
    assert [] + t == t;
    CharClassAppend(prefix + t, suffix, PriceDisallowed);
    assert t + [] == t;
    assert PriceText(prefix + t + suffix) == Trim(t);
    PriceTextOfPriceChars(t);
  }

  /** Text that is all digits is all whole part. */
  lemma ParseWhole(s: string)
    requires forall c :: c in s ==> IsPriceChar(c)
    requires s != [] && Span(s, IsDigit) == |s|
    ensures ParseFloat(s) == Some(Decimal(s, []))
  {
    assert s[|s|..] == [] && s[..|s|] == s;
  }

  /** A run of digits parses to the number it denotes. */
  lemma ParseDigits(s: string)
    requires s != [] && forall c :: c in s ==> IsDigit(c)
    ensures ParseFloat(s) == Some(DigitsValue(s) as real)
  {
    assert Span(s, IsDigit) == |s| by {
      assert forall i :: 0 <= i < |s| ==> s[i] in s;
    }
    ParseWhole(s);
  }

  /** A numeral denotes its own value as a price. */
  lemma NumeralPrice(n: nat)
    ensures CleanProductPrice(Numeral(n)) == n as real
  {
    var s := Numeral(n);
    PriceTextOfPriceChars(s);
    ParseDigits(s);
    NumeralValue(n);
  }

  /** `digits.digits` parses to the whole part plus the fraction scaled by its length. */
  lemma ParseDecimal(w: string, f: string)
    requires forall c :: c in w ==> IsDigit(c)
    requires f != [] && forall c :: c in f ==> IsDigit(c)
    ensures ParseFloat(w + "." + f)
      == Some(Decimal(w, f))
  {
    var s := w + "." + f;
    assert forall i :: 0 <= i < |w| ==> s[i] == w[i] && w[i] in w;
    assert s[|w|] == '.';
    var whole := Span(s, IsDigit);
    assert s[..whole] == w;
    var rest := s[whole..];
    assert rest != [] && rest[0] == '.';
    assert rest[1..] == f;
    assert forall i :: 0 <= i < |f| ==> f[i] in f;
    var k := Span(f, IsDigit);
    assert f[..k] == f;
    assert rest[1..][..Span(rest[1..], IsDigit)] == f;
  }

  /** A decimal price keeps its fraction. */
  lemma DecimalPrice(w: string, f: string)
    requires forall c :: c in w ==> IsDigit(c)
    requires f != [] && forall c :: c in f ==> IsDigit(c)
    ensures CleanProductPrice(w + "." + f) == Decimal(w, f)
  {
    var s := w + "." + f;
    assert forall c :: c in s ==> c in w || c == '.' || c in f;
    PriceTextOfPriceChars(s);
    ParseDecimal(w, f);
  }
}
