/**
 * The few pieces of JavaScript string semantics the product cleaners rely on:
 * the `\s` class and `String.prototype.trim`, and global replacement
 * `s.replace(/re/g, rep)` for each regular expression the cleaners use.
 *
 * A string is a sequence of Unicode code points. Every pattern here matches
 * at least one character whenever it matches, so a global replacement scans
 * left to right: at each position it either replaces the match that starts
 * there (the one the backtracking engine finds first) and resumes after it,
 * or copies one character and moves on.
 */
module Regex {
  import opened Wrappers

  // ---------------------------------------------------------------------------
  // Character classes
  // ---------------------------------------------------------------------------

  /** ECMAScript line terminators: the characters `.` does not match. */
  predicate IsLineTerminator(c: char) {
    c == '\n' || c == '\r' || c == '\U{2028}' || c == '\U{2029}'
  }

  /**
   * `\s`, which is also the set `trim` removes: white space and line
   * terminators. The only allow-listed character in it is the space.
   */
  predicate IsSpace(c: char)
    ensures IsNameChar(c) ==> (IsSpace(c) <==> c == ' ')
  {
    || c == '\t' || c == '\U{B}' || c == '\U{C}' || c == ' ' || c == '\U{A0}' || c == '\U{FEFF}'
    || c == '\U{1680}' || ('\U{2000}' <= c <= '\U{200A}') || c == '\U{202F}' || c == '\U{205F}'
    || c == '\U{3000}' || IsLineTerminator(c)
  }

  predicate IsDigit(c: char) { '0' <= c <= '9' }
  predicate IsUpper(c: char) { 'A' <= c <= 'Z' }
  predicate IsLower(c: char) { 'a' <= c <= 'z' }

  /** `[\w.-]`: the characters of a file name after `/etc/`. */
  predicate IsPathChar(c: char) {
    IsUpper(c) || IsLower(c) || IsDigit(c) || c == '_' || c == '.' || c == '-'
  }

  /** The four code-point ranges of the emoji expression. */
  predicate IsEmoji(c: char) {
    || ('\U{1F300}' <= c <= '\U{1F6FF}') || ('\U{1F900}' <= c <= '\U{1F9FF}')
    || ('\U{2600}' <= c <= '\U{26FF}') || ('\U{2700}' <= c <= '\U{27BF}')
  }

  /** The allow-list `[a-zA-Z0-9 .,!?'"()\/_-]` of product names. */
  predicate IsNameChar(c: char) {
    IsUpper(c) || IsLower(c) || IsDigit(c) || c in " .,!?'\"()/_-"
  }

  /** The characters `[0-9.]` a price keeps. */
  predicate IsPriceChar(c: char) {
    IsDigit(c) || c == '.'
  }

  /**
   * Case folding under the `i` flag without `u`: only ASCII letters fold,
   * because no non-ASCII character canonicalizes onto an ASCII one.
   */
  function Fold(c: char): (r: char)
    ensures !IsUpper(r)
    ensures IsLower(r) <==> IsUpper(c) || IsLower(c)
  {
    if IsUpper(c) then (c as int + 32) as char else c
  }

  /** Character comparison under the `i` flag when `caseless`: a letter only ever equals a letter. */
  predicate Same(c: char, k: char, caseless: bool)
    ensures !caseless ==> (Same(c, k, caseless) <==> c == k)
    ensures Same(c, k, caseless) ==> (IsUpper(c) || IsLower(c) <==> IsUpper(k) || IsLower(k))
  {
    c == k || (caseless && Fold(c) == Fold(k))
  }

  /** `t` begins with the literal `w`, compared case-insensitively when `caseless`. */
  predicate StartsWith(t: string, w: string, caseless: bool)
    ensures StartsWith(t, w, caseless) ==> |w| <= |t|
  {
    |w| == 0 || (|t| > 0 && Same(t[0], w[0], caseless) && StartsWith(t[1..], w[1..], caseless))
  }

  // ---------------------------------------------------------------------------
  // Spans and trimming
  // ---------------------------------------------------------------------------

  /** The length of the longest prefix of `s` whose characters all satisfy `p`. */
  function Span(s: string, p: char -> bool): (n: nat)
    ensures n <= |s|
    ensures forall i :: 0 <= i < n ==> p(s[i])
    ensures n < |s| ==> !p(s[n])
  {
    if s != [] && p(s[0]) then 1 + Span(s[1..], p) else 0
  }

  /**
   * `trimStart`: drops the leading white space. `TrimStartSuffix` shows that
   * it drops nothing else.
   */
  function TrimStart(s: string): (r: string)
    ensures |r| <= |s|
    ensures forall i :: 0 <= i < |s| - |r| ==> IsSpace(s[i])
    ensures r == [] || !IsSpace(r[0])
  {
    if s != [] && IsSpace(s[0]) then TrimStart(s[1..]) else s
  }

  /**
   * `trimEnd`: drops the trailing white space. `TrimEndPrefix` shows that it
   * drops nothing else.
   */
  function TrimEnd(s: string): (r: string)
    ensures |r| <= |s|
    ensures forall i :: |r| <= i < |s| ==> IsSpace(s[i])
    ensures r == [] || !IsSpace(r[|r| - 1])
  {
    if s != [] && IsSpace(s[|s| - 1]) then TrimEnd(s[..|s| - 1]) else s
  }

  /** `trimStart` returns the rest of its input after the characters it drops. */
  lemma {:induction false} TrimStartSuffix(s: string)
    ensures TrimStart(s) == s[|s| - |TrimStart(s)|..]
    decreases |s|
  {
    if s != [] && IsSpace(s[0]) {
      TrimStartSuffix(s[1..]);
      DropDrop(s, 1, |s| - 1 - |TrimStart(s)|);
    }
  }

  /** `trimEnd` returns the start of its input before the characters it drops. */
  lemma {:induction false} TrimEndPrefix(s: string)
    ensures TrimEnd(s) == s[..|TrimEnd(s)|]
    decreases |s|
  {
    if s != [] && IsSpace(s[|s| - 1]) {
      TrimEndPrefix(s[..|s| - 1]);
      TakeTake(s, |s| - 1, |TrimEnd(s)|);
    }
  }

  /** `String.prototype.trim`. */
  function Trim(s: string): (r: string)
    ensures r == [] || (!IsSpace(r[0]) && !IsSpace(r[|r| - 1]))
    ensures forall c :: c in r ==> c in s
  {
    var t := TrimStart(s);
    TrimStartSuffix(s);
    TrimEndPrefix(t);
    assert forall c :: c in t ==> c in s;
    assert forall c :: c in TrimEnd(t) ==> c in t;
    TrimEnd(t)
  }

  /** Letters are not white space. */
  lemma LettersAreNotSpace(s: string)
    requires forall c :: c in s ==> IsUpper(c) || IsLower(c)
    ensures forall c :: c in s ==> !IsSpace(c)
  {
  }

  /** A string without surrounding white space is left alone by `trim`. */
  lemma TrimUntouched(s: string)
    requires s == [] || (!IsSpace(s[0]) && !IsSpace(s[|s| - 1]))
    ensures Trim(s) == s
  {
  }

  // ---------------------------------------------------------------------------
  // The regular expressions
  // ---------------------------------------------------------------------------

  /** The keyword alternatives of the SQL expression, in the order they are tried. */
  const SqlKeywords: seq<string> := ["DROP TABLE", "SELECT", "INSERT", "DELETE", "UPDATE", "CREATE", "EXEC"]

  datatype Pattern =
    | Emoji            // /[\u{1F300}-\u{1F6FF}\u{1F900}-\u{1F9FF}\u{2600}-\u{26FF}\u{2700}-\u{27BF}]/gu
    | ParenGroup       // /\(.*?\)/g
    | DotDotSlashes    // /\.\.\/+/g
    | EtcPath          // /\/etc\/[\w.-]+/g
    | SqlKeyword       // /DROP TABLE|SELECT|INSERT|DELETE|UPDATE|CREATE|EXEC/gi
    | NameDisallowed   // /[^a-zA-Z0-9 .,!?'"()\/_-]/g
    | PriceDisallowed  // /[^0-9.]/g
    | SpaceRun         // /\s+/g

  /** Patterns that match exactly one character from a fixed class. */
  predicate IsCharClass(p: Pattern) {
    p.Emoji? || p.NameDisallowed? || p.PriceDisallowed?
  }

  /** The characters a one-character pattern matches. */
  predicate Rejects(p: Pattern, c: char)
    requires IsCharClass(p)
  {
    match p
    case Emoji => IsEmoji(c)
    case NameDisallowed => !IsNameChar(c)
    case PriceDisallowed => !IsPriceChar(c)
  }

  /**
   * Where the text after an opening parenthesis closes the group under the lazy
   * `.*?\)`: the index of the first `)`, provided no line terminator comes first.
   */
  function CloseParen(s: string): (r: Option<nat>)
    ensures r.Some? ==> r.value < |s| && s[r.value] == ')'
    ensures r.Some? ==> forall i :: 0 <= i < r.value ==> s[i] != ')' && !IsLineTerminator(s[i])
  {
    if s == [] || IsLineTerminator(s[0]) then None
    else if s[0] == ')' then Some(0)
    else match CloseParen(s[1..])
      case None => None
      case Some(k) => Some(k + 1)
  }

  /** The length of the first alternative of `keywords` that `s` begins with, or 0. */
  function KeywordMatch(s: string, keywords: seq<string>): (n: nat)
    ensures n <= |s|
    ensures n > 0 ==> exists k :: k in keywords && |k| == n && StartsWith(s, k, true)
  {
    if keywords == [] then 0
    else if StartsWith(s, keywords[0], true) && |keywords[0]| > 0 then |keywords[0]|
    else KeywordMatch(s, keywords[1..])
  }

  /** The length of the match of `p` that starts at the beginning of `s`, or 0 if none does. */
  function MatchLength(p: Pattern, s: string): (n: nat)
    ensures n <= |s|
  {
    if s == [] then 0
    else match p
      case Emoji | NameDisallowed | PriceDisallowed =>
        if Rejects(p, s[0]) then 1 else 0
      case ParenGroup =>
        if s[0] == '(' then
          match CloseParen(s[1..])
          case Some(k) => k + 2
          case None => 0
        else 0
      case DotDotSlashes =>
        if StartsWith(s, "../", false) then 3 + Span(s[3..], c => c == '/') else 0
      case EtcPath =>
        if |s| > 5 && StartsWith(s, "/etc/", false) && IsPathChar(s[5]) then 5 + Span(s[5..], IsPathChar) else 0
      case SqlKeyword => KeywordMatch(s, SqlKeywords)
      case SpaceRun => Span(s, IsSpace)
  }

  /** `s.replace(p, rep)` with the global flag. Deleting matches never lengthens the text. */
  function ReplaceAll(s: string, p: Pattern, rep: string): (r: string)
    decreases |s|
    ensures rep == [] ==> |r| <= |s|
  {
    if s == [] then []
    else if MatchLength(p, s) > 0 then rep + ReplaceAll(s[MatchLength(p, s)..], p, rep)
    else [s[0]] + ReplaceAll(s[1..], p, rep)
  }

  /** Every character of a replacement's output comes from the input or from the replacement text. */
  lemma {:induction false} ReplaceAllChars(s: string, p: Pattern, rep: string)
    ensures forall c :: c in ReplaceAll(s, p, rep) ==> c in s || c in rep
    decreases |s|
  {
    if s != [] {
      var n := if MatchLength(p, s) > 0 then MatchLength(p, s) else 1;
      ReplaceAllChars(s[n..], p, rep);
      assert forall c :: c in s[n..] ==> c in s;
    }
  }

  /** No match of `p` starts anywhere in `s`. */
  ghost predicate MatchFree(p: Pattern, s: string) {
    forall i :: 0 <= i <= |s| ==> MatchLength(p, s[i..]) == 0
  }

  // ---------------------------------------------------------------------------
  // General facts about global replacement
  // ---------------------------------------------------------------------------

  /** A string in which the pattern never matches is returned unchanged. */
  lemma {:induction false} ReplaceAllUnmatched(s: string, p: Pattern, rep: string)
    requires MatchFree(p, s)
    ensures ReplaceAll(s, p, rep) == s
  {
    if s != [] {
      assert s[0..] == s;
      assert MatchFree(p, s[1..]) by {
        forall i | 0 <= i <= |s[1..]| ensures MatchLength(p, s[1..][i..]) == 0 {
          assert s[1..][i..] == s[i + 1..];
        }
      }
      ReplaceAllUnmatched(s[1..], p, rep);
    }
  }

  /** A one-character pattern removes exactly the characters of its class, wherever they are. */
  lemma {:induction false} CharClassRemoved(s: string, p: Pattern)
    requires IsCharClass(p)
    ensures forall c :: c in ReplaceAll(s, p, []) <==> c in s && !Rejects(p, c)
    ensures |ReplaceAll(s, p, [])| <= |s|
  {
    if s != [] {
      CharClassRemoved(s[1..], p);
      assert s == [s[0]] + s[1..];
      assert MatchLength(p, s) == if Rejects(p, s[0]) then 1 else 0;
    }
  }

  /** Text of characters a one-character pattern matches vanishes entirely. */
  lemma {:induction false} CharClassDropsAll(s: string, p: Pattern)
    requires IsCharClass(p)
    requires forall c :: c in s ==> Rejects(p, c)
    ensures ReplaceAll(s, p, []) == []
    decreases |s|
  {
    if s != [] {
      assert s[0] in s;
      assert forall c :: c in s[1..] ==> c in s;
      CharClassDropsAll(s[1..], p);
    }
  }

  /** Removing a one-character class distributes over concatenation. */
  lemma {:induction false} CharClassAppend(a: string, b: string, p: Pattern)
    requires IsCharClass(p)
    ensures ReplaceAll(a + b, p, []) == ReplaceAll(a, p, []) + ReplaceAll(b, p, [])
  {
    if a != [] {
      var head := if Rejects(p, a[0]) then [] else [a[0]];
      assert (a + b)[0] == a[0];
      DropAppend(a, b, 1);
      ReplaceAllStep(a + b, p, []);
      ReplaceAllStep(a, p, []);
      CharClassAppend(a[1..], b, p);
      ConcatShift(ReplaceAll(a + b, p, []), head, ReplaceAll(a[1..] + b, p, []),
                  ReplaceAll(a[1..], p, []), ReplaceAll(b, p, []));
    } else {
      assert a + b == b;
    }
  }

  /**
   * Where the replacement starts with `rep[0]`, the output cannot begin with a
   * literal none of whose characters matches `rep[0]`; elsewhere the output copies
   * the input. So an output that begins with such a literal comes from an input
   * that begins with it.
   */
  lemma {:induction false} ReplacedPrefix(t: string, p: Pattern, rep: string, w: string, caseless: bool)
    requires rep != []
    requires forall j :: 0 <= j < |w| ==> !Same(rep[0], w[j], caseless)
    requires StartsWith(ReplaceAll(t, p, rep), w, caseless)
    ensures StartsWith(t, w, caseless)
    decreases |w|
  {
    if |w| > 0 {
      var r := ReplaceAll(t, p, rep);
      var first := rep[0];
      assert t != [];
      assert r[0] == if MatchLength(p, t) > 0 then first else t[0];
      assert Same(r[0], w[0], caseless) && !Same(rep[0], w[0], caseless);
      assert r == [t[0]] + ReplaceAll(t[1..], p, rep);
      assert r[1..] == ReplaceAll(t[1..], p, rep);
      ReplacedPrefix(t[1..], p, rep, w[1..], caseless);
    }
  }

  /** The characters of `s` that the one-character pattern `p` does not match, in order. */
  function Kept(s: string, p: Pattern): string
    requires IsCharClass(p)
  {
    if s == [] then [] else (if Rejects(p, s[0]) then [] else [s[0]]) + Kept(s[1..], p)
  }

  /** Deleting every match of a one-character pattern is filtering by its class. */
  lemma {:induction false} CharClassFilters(s: string, p: Pattern)
    requires IsCharClass(p)
    ensures ReplaceAll(s, p, []) == Kept(s, p)
    decreases |s|
  {
    if s != [] {
      CharClassFilters(s[1..], p);
      assert MatchLength(p, s) == if Rejects(p, s[0]) then 1 else 0;
    }
  }

  /** Text that is one match from end to end becomes the replacement. */
  lemma WholeMatchReplaced(s: string, p: Pattern, rep: string)
    requires 0 < MatchLength(p, s) == |s|
    ensures ReplaceAll(s, p, rep) == rep
  {
    assert s[|s|..] == [];
  }

  /** Whether a match of `p` can begin with the character `c`. */
  predicate CanStart(p: Pattern, c: char) {
    match p
    case Emoji | NameDisallowed | PriceDisallowed => Rejects(p, c)
    case ParenGroup => c == '('
    case DotDotSlashes => c == '.'
    case EtcPath => c == '/'
    case SqlKeyword => Fold(c) in "dsiuce"
    case SpaceRun => IsSpace(c)
  }

  /** The first two letters of the keywords, case folded. */
  predicate KeywordPair(a: char, b: char) {
    || (a == 'd' && (b == 'r' || b == 'e'))
    || (a == 's' && b == 'e') || (a == 'i' && b == 'n') || (a == 'u' && b == 'p')
    || (a == 'c' && b == 'r') || (a == 'e' && b == 'x')
  }

  lemma KeywordPairs(k: string)
    requires k in SqlKeywords
    ensures |k| >= 2 && KeywordPair(Fold(k[0]), Fold(k[1]))
  {
    assert k == "DROP TABLE" || k == "SELECT" || k == "INSERT" || k == "DELETE"
      || k == "UPDATE" || k == "CREATE" || k == "EXEC";
  }

  /** A keyword match begins with the first two letters of a keyword, in either case. */
  lemma KeywordHead(x: string)
    ensures MatchLength(SqlKeyword, x) > 0 ==> |x| >= 2 && KeywordPair(Fold(x[0]), Fold(x[1]))
  {
    if MatchLength(SqlKeyword, x) > 0 {
      FirstKeywordFound(x, SqlKeywords);
      var k := FirstKeyword(x, SqlKeywords);
      KeywordPairs(k);
      StartsWithIff(x, k, true);
      assert Same(x[0], k[0], true) && Same(x[1], k[1], true);
    }
  }

  lemma MatchBegins(p: Pattern, x: string)
    ensures MatchLength(p, x) > 0 ==> CanStart(p, x[0])
  {
    if p.SqlKeyword? {
      KeywordHead(x);
    }
  }

  /** Text in which no character can begin a match is returned unchanged. */
  lemma Untouched(s: string, p: Pattern, rep: string)
    requires forall c :: c in s ==> !CanStart(p, c)
    ensures ReplaceAll(s, p, rep) == s
  {
    forall i | 0 <= i <= |s| ensures MatchLength(p, s[i..]) == 0 {
      MatchBegins(p, s[i..]);
      if i < |s| { assert s[i..][0] in s; }
    }
    ReplaceAllUnmatched(s, p, rep);
  }

  /** The patterns whose matches the name cleaner replaces with a placeholder. */
  predicate IsLiteralPattern(p: Pattern) {
    p.DotDotSlashes? || p.EtcPath? || p.SqlKeyword?
  }

  predicate IsCaseless(p: Pattern) { p.SqlKeyword? }

  /** The literal whose presence at the start of `x` decides a match of `p` there. */
  function Window(p: Pattern, x: string): string
    requires IsLiteralPattern(p)
  {
    match p
    case DotDotSlashes => "../"
    case EtcPath => if |x| > 5 then "/etc/" + [x[5]] else "/etc/"
    case SqlKeyword => FirstKeyword(x, SqlKeywords)
  }

  function FirstKeyword(x: string, keywords: seq<string>): string {
    if keywords == [] then []
    else if StartsWith(x, keywords[0], true) && |keywords[0]| > 0 then keywords[0]
    else FirstKeyword(x, keywords[1..])
  }

  lemma {:induction false} FirstKeywordFound(x: string, keywords: seq<string>)
    requires KeywordMatch(x, keywords) > 0
    ensures FirstKeyword(x, keywords) in keywords
    ensures StartsWith(x, FirstKeyword(x, keywords), true)
  {
    if !(StartsWith(x, keywords[0], true) && |keywords[0]| > 0) {
      FirstKeywordFound(x, keywords[1..]);
    }
  }

  lemma {:induction false} KeywordFoundMatches(y: string, k: string, keywords: seq<string>)
    requires k in keywords && |k| > 0 && StartsWith(y, k, true)
    ensures KeywordMatch(y, keywords) > 0
  {
    if !(StartsWith(y, keywords[0], true) && |keywords[0]| > 0) {
      KeywordFoundMatches(y, k, keywords[1..]);
    }
  }

  /** `StartsWith` compares the literal with the prefix of the same length, position by position. */
  lemma {:induction false} StartsWithIff(t: string, w: string, caseless: bool)
    ensures StartsWith(t, w, caseless) <==> |w| <= |t| && forall j :: 0 <= j < |w| ==> Same(t[j], w[j], caseless)
    decreases |w|
  {
    if |w| > 0 && |t| > 0 {
      StartsWithIff(t[1..], w[1..], caseless);
      assert forall j :: 1 <= j < |w| && j < |t| ==> t[1..][j - 1] == t[j] && w[1..][j - 1] == w[j];
    }
  }

  /** Every keyword is made of capital letters and spaces. */
  lemma KeywordChars(k: string)
    requires k in SqlKeywords
    ensures forall j :: 0 <= j < |k| ==> IsUpper(k[j]) || k[j] == ' '
  {
    assert k == "DROP TABLE" || k == "SELECT" || k == "INSERT" || k == "DELETE"
      || k == "UPDATE" || k == "CREATE" || k == "EXEC";
  }

  lemma EtcWindowDecides(x: string, y: string)
    requires MatchLength(EtcPath, x) > 0
    ensures StartsWith(x, Window(EtcPath, x), false)
    ensures StartsWith(y, Window(EtcPath, x), false) ==> MatchLength(EtcPath, y) > 0
  {
    var w := Window(EtcPath, x);
    StartsWithIff(x, "/etc/", false);
    StartsWithIff(x, w, false);
    StartsWithIff(y, w, false);
    StartsWithIff(y, "/etc/", false);
  }

  lemma KeywordWindowDecides(x: string, y: string)
    requires MatchLength(SqlKeyword, x) > 0
    ensures StartsWith(x, Window(SqlKeyword, x), true)
    ensures StartsWith(y, Window(SqlKeyword, x), true) ==> MatchLength(SqlKeyword, y) > 0
    ensures forall j :: 0 <= j < |Window(SqlKeyword, x)| ==> !Same('[', Window(SqlKeyword, x)[j], true)
  {
    FirstKeywordFound(x, SqlKeywords);
    var k := FirstKeyword(x, SqlKeywords);
    KeywordChars(k);
    forall j | 0 <= j < |k| ensures !Same('[', k[j], true) {
      BracketUnlikeKeywordChar(k[j]);
    }
    if StartsWith(y, k, true) {
      KeywordFoundMatches(y, k, SqlKeywords);
    }
  }

  lemma BracketUnlikeKeywordChar(c: char)
    requires IsUpper(c) || c == ' '
    ensures !Same('[', c, true)
  {
  }

  /**
   * The window of a literal pattern decides its match: a match starts with the
   * window, any string that starts with the same window matches too, and no
   * window character is `[`.
   */
  lemma WindowDecides(p: Pattern, x: string, y: string)
    requires IsLiteralPattern(p) && MatchLength(p, x) > 0
    ensures StartsWith(x, Window(p, x), IsCaseless(p))
    ensures StartsWith(y, Window(p, x), IsCaseless(p)) ==> MatchLength(p, y) > 0
    ensures forall j :: 0 <= j < |Window(p, x)| ==> !Same('[', Window(p, x)[j], IsCaseless(p))
  {
    match p
    case DotDotSlashes =>
    case EtcPath => EtcWindowDecides(x, y);
    case SqlKeyword => KeywordWindowDecides(x, y);
  }

  /**
   * A match of `p` at the start of the output of replacing `q`, just before
   * the rest of the replaced text, can only come from a match at the start of
   * the input.
   */
  lemma MatchTransfers(s: string, p: Pattern, q: Pattern, rep: string)
    requires IsLiteralPattern(p) && s != []
    requires rep != [] && rep[0] == '['
    ensures MatchLength(p, [s[0]] + ReplaceAll(s[1..], q, rep)) > 0 ==> MatchLength(p, s) > 0
  {
    var r := [s[0]] + ReplaceAll(s[1..], q, rep);
    if MatchLength(p, r) > 0 {
      var w := Window(p, r);
      WindowDecides(p, r, s);
      if |w| > 0 {
        assert r[1..] == ReplaceAll(s[1..], q, rep);
        assert StartsWith(r[1..], w[1..], IsCaseless(p));
        ReplacedPrefix(s[1..], q, rep, w[1..], IsCaseless(p));
        assert s == [s[0]] + s[1..];
      }
    }
  }

  /**
   * Replacing every match of a literal pattern by a placeholder that starts with
   * `[` and in which no match can start leaves no match behind: the replacement
   * never assembles a new occurrence from the text around a placeholder.
   */
  lemma {:induction false} PlaceholderLeavesNoMatch(s: string, p: Pattern, rep: string)
    requires IsLiteralPattern(p)
    requires rep != [] && rep[0] == '['
    requires forall i, tail :: 0 <= i < |rep| ==> MatchLength(p, rep[i..] + tail) == 0
    ensures MatchFree(p, ReplaceAll(s, p, rep))
    decreases |s|
  {
    var r := ReplaceAll(s, p, rep);
    if s != [] {
      var n := MatchLength(p, s);
      ReplaceAllStep(s, p, rep);
      if n > 0 {
        var r' := ReplaceAll(s[n..], p, rep);
        PlaceholderLeavesNoMatch(s[n..], p, rep);
        forall i | 0 <= i <= |r| ensures MatchLength(p, r[i..]) == 0 {
          DropSplit(rep, r', i);
        }
      } else {
        var r' := ReplaceAll(s[1..], p, rep);
        PlaceholderLeavesNoMatch(s[1..], p, rep);
        forall i | 0 <= i <= |r| ensures MatchLength(p, r[i..]) == 0 {
          if i == 0 {
            assert r[0..] == r;
            MatchTransfers(s, p, p, rep);
          } else {
            DropSplit([s[0]], r', i);
          }
        }
      }
    }
  }

  /** Inside the text after `(`, a replacement cannot create a `)` reachable without a line break. */
  lemma {:induction false} UnclosedStaysUnclosed(t: string)
    requires CloseParen(t).None?
    ensures CloseParen(ReplaceAll(t, ParenGroup, [])).None?
    decreases |t|
  {
    if t != [] && !IsLineTerminator(t[0]) {
      assert t[0] != ')';
      assert MatchLength(ParenGroup, t) == 0;
      var r := ReplaceAll(t, ParenGroup, []);
      assert r == [t[0]] + ReplaceAll(t[1..], ParenGroup, []);
      assert r[1..] == ReplaceAll(t[1..], ParenGroup, []);
      UnclosedStaysUnclosed(t[1..]);
    } else if t != [] {
      var r := ReplaceAll(t, ParenGroup, []);
      assert MatchLength(ParenGroup, t) == 0;
      assert r[0] == t[0];
    }
  }

  /** After removing every `(...)` group, no group is left. */
  lemma {:induction false} ParenGroupsGone(s: string)
    ensures MatchFree(ParenGroup, ReplaceAll(s, ParenGroup, []))
    decreases |s|
  {
    var r := ReplaceAll(s, ParenGroup, []);
    if s != [] {
      var n := MatchLength(ParenGroup, s);
      if n > 0 {
        assert r == ReplaceAll(s[n..], ParenGroup, []);
        ParenGroupsGone(s[n..]);
      } else {
        var r' := ReplaceAll(s[1..], ParenGroup, []);
        ParenGroupsGone(s[1..]);
        assert r == [s[0]] + r';
        forall i | 0 <= i <= |r| ensures MatchLength(ParenGroup, r[i..]) == 0 {
          if i == 0 {
            if s[0] == '(' {
              assert CloseParen(s[1..]).None?;
              UnclosedStaysUnclosed(s[1..]);
              assert r[1..] == r';
            }
          } else {
            assert r[i..] == r'[i - 1..];
          }
        }
      }
    }
  }

  /** A closing parenthesis after text without `)` or line breaks closes the group there. */
  lemma {:induction false} CloseParenAt(g: string, b: string)
    requires forall j :: 0 <= j < |g| ==> g[j] != ')' && !IsLineTerminator(g[j])
    ensures CloseParen(g + ")" + b) == Some(|g|)
    decreases |g|
  {
    var t := g + ")" + b;
    if g != [] {
      assert t[0] == g[0];
      assert t[1..] == g[1..] + ")" + b;
      CloseParenAt(g[1..], b);
    } else {
      assert t[0] == ')';
    }
  }

  /** Text in which no match starts before `t` is copied as it is. */
  lemma {:induction false} ReplaceAllCopies(a: string, t: string, p: Pattern, rep: string)
    requires forall i :: 0 <= i < |a| ==> MatchLength(p, (a + t)[i..]) == 0
    ensures ReplaceAll(a + t, p, rep) == a + ReplaceAll(t, p, rep)
    decreases |a|
  {
    if a == [] {
      assert a + t == t;
    } else {
      var s := a + t;
      assert s[0..] == s;
      DropAppend(a, t, 1);
      forall i | 0 <= i < |a[1..]| ensures MatchLength(p, (a[1..] + t)[i..]) == 0 {
        DropAppend(a, t, 1);
        DropDrop(s, 1, i);
      }
      ReplaceAllCopies(a[1..], t, p, rep);
      ReplaceAllStep(s, p, rep);
      assert s[0] == a[0];
      ConcatShift(ReplaceAll(s, p, rep), [a[0]], ReplaceAll(a[1..] + t, p, rep), a[1..], ReplaceAll(t, p, rep));
      assert a == [a[0]] + a[1..];
    }
  }

  /**
   * A match between text in which no match starts and text free of matches is
   * replaced in place: the text around it stays as it is.
   */
  lemma MatchReplacedInPlace(a: string, m: string, b: string, p: Pattern, rep: string)
    requires forall i :: 0 <= i < |a| ==> MatchLength(p, (a + m + b)[i..]) == 0
    requires 0 < MatchLength(p, m + b) == |m|
    requires MatchFree(p, b)
    ensures ReplaceAll(a + m + b, p, rep) == a + rep + b
  {
    Regroup(a, m, b);
    ReplaceAllCopies(a, m + b, p, rep);
    ReplaceAllStep(m + b, p, rep);
    DropAppend(m, b, |m|);
    assert m[|m|..] == [];
    ReplaceAllUnmatched(b, p, rep);
    Regroup(a, rep, b);
  }

  /** A `(...)` group at the start of the text is removed and the scan goes on after it. */
  lemma GroupAtStart(g: string, b: string)
    requires forall j :: 0 <= j < |g| ==> g[j] != ')' && !IsLineTerminator(g[j])
    ensures ReplaceAll(['('] + g + [')'] + b, ParenGroup, []) == ReplaceAll(b, ParenGroup, [])
  {
    var t := ['('] + g + [')'] + b;
    assert t[0] == '(';
    assert t[1..] == g + ")" + b;
    CloseParenAt(g, b);
    assert MatchLength(ParenGroup, t) == |g| + 2;
    assert t[|g| + 2..] == b;
  }

  /** Removing a `(...)` group keeps the text before it and goes on after it. */
  lemma GroupRemovedInPlace(a: string, g: string, b: string)
    requires forall j :: 0 <= j < |a| ==> a[j] != '('
    requires forall j :: 0 <= j < |g| ==> g[j] != ')' && !IsLineTerminator(g[j])
    ensures ReplaceAll(a + "(" + g + ")" + b, ParenGroup, []) == a + ReplaceAll(b, ParenGroup, [])
  {
    var t := ['('] + g + [')'] + b;
    assert a + "(" + g + ")" + b == a + t;
    forall i | 0 <= i < |a| ensures MatchLength(ParenGroup, (a + t)[i..]) == 0 {
      assert (a + t)[i..][0] == a[i];
    }
    ReplaceAllCopies(a, t, ParenGroup, []);
    GroupAtStart(g, b);
  }

  /** A text free of matches stays free after any of its prefixes is cut off. */
  lemma MatchFreeSuffix(p: Pattern, s: string, k: nat)
    requires k <= |s| && MatchFree(p, s)
    ensures MatchFree(p, s[k..])
  {
    forall i | 0 <= i <= |s[k..]| ensures MatchLength(p, s[k..][i..]) == 0 {
      assert s[k..][i..] == s[k + i..];
    }
  }

  /**
   * Replacing the matches of any pattern `q` by a placeholder that starts with
   * `[` and in which no match of `p` can start keeps text free of `p`.
   */
  lemma {:induction false} PlaceholderKeepsFree(s: string, p: Pattern, q: Pattern, rep: string)
    requires IsLiteralPattern(p) && MatchFree(p, s)
    requires rep != [] && rep[0] == '['
    requires forall i, tail :: 0 <= i < |rep| ==> MatchLength(p, rep[i..] + tail) == 0
    ensures MatchFree(p, ReplaceAll(s, q, rep))
    decreases |s|
  {
    var r := ReplaceAll(s, q, rep);
    if s != [] {
      var n := MatchLength(q, s);
      ReplaceAllStep(s, q, rep);
      if n > 0 {
        var r' := ReplaceAll(s[n..], q, rep);
        MatchFreeSuffix(p, s, n);
        PlaceholderKeepsFree(s[n..], p, q, rep);
        forall i | 0 <= i <= |r| ensures MatchLength(p, r[i..]) == 0 {
          DropSplit(rep, r', i);
        }
      } else {
        var r' := ReplaceAll(s[1..], q, rep);
        MatchFreeSuffix(p, s, 1);
        PlaceholderKeepsFree(s[1..], p, q, rep);
        forall i | 0 <= i <= |r| ensures MatchLength(p, r[i..]) == 0 {
          if i == 0 {
            assert s[0..] == s && r[0..] == r;
            MatchTransfers(s, p, q, rep);
          } else {
            DropSplit([s[0]], r', i);
          }
        }
      }
    }
  }

  /** The run of `p` at the start of `x + y`: it goes on into `y` only when all of `x` belongs to it. */
  lemma {:induction false} SpanAppend(x: string, y: string, p: char -> bool)
    ensures Span(x + y, p) == if Span(x, p) < |x| then Span(x, p) else |x| + Span(y, p)
    decreases |x|
  {
    if x == [] {
      assert x + y == y;
    } else {
      assert (x + y)[0] == x[0];
      assert (x + y)[1..] == x[1..] + y;
      SpanAppend(x[1..], y, p);
    }
  }

  /** Dropping a prefix of `x` from `x + y` drops it from `x`. */
  lemma DropAppend(x: string, y: string, n: nat)
    requires n <= |x|
    ensures (x + y)[n..] == x[n..] + y
  {
  }

  /** Dropping `n` and then `i` characters drops `n + i`. */
  lemma DropDrop(s: string, n: nat, i: nat)
    requires n + i <= |s|
    ensures s[n..][i..] == s[n + i..]
  {
  }

  /** A suffix of `a + b` is a suffix of `a` followed by `b`, or a suffix of `b`. */
  lemma DropSplit(a: string, b: string, i: nat)
    requires i <= |a + b|
    ensures (a + b)[i..] == if i < |a| then a[i..] + b else b[i - |a|..]
  {
  }

  /** Taking `n` and then `k` characters takes `k`. */
  lemma TakeTake(s: string, n: nat, k: nat)
    requires k <= n <= |s|
    ensures s[..n][..k] == s[..k]
  {
  }

  /** Text that is `head` followed by `tail + right` is `head + tail` followed by `right`. */
  lemma ConcatShift(whole: string, head: string, rest: string, tail: string, right: string)
    requires whole == head + rest
    requires rest == tail + right
    ensures whole == (head + tail) + right
  {
  }

  /** One step of the scan of a global replacement. */
  lemma ReplaceAllStep(s: string, p: Pattern, rep: string)
    requires s != []
    ensures var n := MatchLength(p, s);
      ReplaceAll(s, p, rep) == if n > 0 then rep + ReplaceAll(s[n..], p, rep) else [s[0]] + ReplaceAll(s[1..], p, rep)
  {
  }

  /** A white-space match is the run of white space at the start. */
  lemma SpaceRunLength(s: string)
    ensures MatchLength(SpaceRun, s) == Span(s, IsSpace)
  {
  }

  /** Where white space does not run across the seam, the run at the start of `x + y` is the one of `x`. */
  lemma SpaceRunAtSeam(x: string, y: string)
    requires x != []
    requires y == [] || !IsSpace(x[|x| - 1]) || !IsSpace(y[0])
    ensures Span(x + y, IsSpace) == Span(x, IsSpace)
  {
    SpanAppend(x, y, IsSpace);
    if Span(x, IsSpace) == |x| {
      assert IsSpace(x[|x| - 1]);
      assert Span(y, IsSpace) == 0 by {
        assert y == [] || !IsSpace(y[0]);
      }
    }
  }

  /**
   * Where white space does not run across the seam, collapsing white space
   * in `x + y` collapses `x` and `y` separately.
   */
  lemma {:induction false} SpaceRunSplit(x: string, y: string)
    requires x == [] || y == [] || !IsSpace(x[|x| - 1]) || !IsSpace(y[0])
    ensures ReplaceAll(x + y, SpaceRun, " ") == ReplaceAll(x, SpaceRun, " ") + ReplaceAll(y, SpaceRun, " ")
    decreases |x|
  {
    if x == [] {
      assert x + y == y;
      assert ReplaceAll(x, SpaceRun, " ") == [];
    } else {
      var nx := Span(x, IsSpace);
      SpaceRunAtSeam(x, y);
      SpaceRunLength(x);
      SpaceRunLength(x + y);
      var n := if nx == 0 then 1 else nx;
      var rest := x[n..];
      assert rest != [] ==> rest[|rest| - 1] == x[|x| - 1];
      SpaceRunSplit(rest, y);
      ReplaceAllStep(x + y, SpaceRun, " ");
      ReplaceAllStep(x, SpaceRun, " ");
      assert (x + y)[0] == x[0];
      DropAppend(x, y, n);
      var head := if nx == 0 then [x[0]] else " ";
      ConcatShift(ReplaceAll(x + y, SpaceRun, " "), head, ReplaceAll(rest + y, SpaceRun, " "),
                  ReplaceAll(rest, SpaceRun, " "), ReplaceAll(y, SpaceRun, " "));
    }
  }

  /** White space made only of single spaces, never two in a row. */
  ghost predicate SingleSpaces(s: string) {
    && (forall i :: 0 <= i < |s| && IsSpace(s[i]) ==> s[i] == ' ')
    && (forall i, j :: 0 <= i < j < |s| && j == i + 1 ==> !(IsSpace(s[i]) && IsSpace(s[j])))
  }

  /** Single-spaced text stays single-spaced without its first character. */
  lemma SingleSpacesTail(s: string)
    requires s != [] && SingleSpaces(s)
    ensures SingleSpaces(s[1..])
  {
    assert forall i :: 0 <= i < |s[1..]| ==> s[1..][i] == s[i + 1];
  }

  /** The collapse scan copies the first character of single-spaced text and goes on after it. */
  lemma SingleSpacesHead(s: string)
    requires s != [] && SingleSpaces(s)
    ensures ReplaceAll(s, SpaceRun, " ") == [s[0]] + ReplaceAll(s[1..], SpaceRun, " ")
  {
    SpaceRunLength(s);
    ReplaceAllStep(s, SpaceRun, " ");
    if IsSpace(s[0]) {
      assert |s| > 1 ==> !IsSpace(s[1]);
      assert Span(s, IsSpace) == 1 by {
        assert s[1..] == [] || !IsSpace(s[1..][0]);
      }
    }
  }

  /** Text whose white space is single spaces, never two in a row, is left alone by the collapse. */
  lemma {:induction false} SingleSpacedSettled(s: string)
    requires SingleSpaces(s)
    ensures ReplaceAll(s, SpaceRun, " ") == s
    decreases |s|
  {
    if s != [] {
      SingleSpacesTail(s);
      SingleSpacedSettled(s[1..]);
      SingleSpacesHead(s);
      SplitAt(s, 1);
      assert s[..1] == [s[0]];
    }
  }

  /** Leading white space is trimmed alike whatever follows text that ends in a non-space character. */
  lemma {:induction false} TrimStartAppend(x: string, z: string)
    requires x != [] && !IsSpace(x[|x| - 1])
    ensures TrimStart(x + z) == TrimStart(x) + z
    decreases |x|
  {
    assert (x + z)[0] == x[0];
    if IsSpace(x[0]) {
      DropAppend(x, z, 1);
      assert x[1..][|x[1..]| - 1] == x[|x| - 1];
      TrimStartAppend(x[1..], z);
    }
  }

  /** Trailing white space is trimmed alike whatever precedes text that starts with a non-space character. */
  lemma {:induction false} TrimEndPrepend(z: string, y: string)
    requires y != [] && !IsSpace(y[0])
    ensures TrimEnd(z + y) == z + TrimEnd(y)
    decreases |y|
  {
    assert (z + y)[|z + y| - 1] == y[|y| - 1];
    if IsSpace(y[|y| - 1]) {
      var y' := y[..|y| - 1];
      assert (z + y)[..|z + y| - 1] == z + y';
      assert y'[0] == y[0];
      TrimEndPrepend(z, y');
    }
  }

  /** Text that ends in a non-space character only loses its leading white space to `trim`. */
  lemma TrimEndingText(x: string)
    requires x != [] && !IsSpace(x[|x| - 1])
    ensures var u := TrimStart(x); u != [] && u[|u| - 1] == x[|x| - 1] && Trim(x) == u
  {
    TrimStartSuffix(x);
  }

  /**
   * Trimming text in which one space separates two non-space characters
   * trims each side on its own and keeps the space.
   */
  lemma TrimAroundSpace(x: string, y: string)
    requires x != [] && !IsSpace(x[|x| - 1])
    requires y != [] && !IsSpace(y[0])
    ensures Trim(x + " " + y) == Trim(x) + " " + Trim(y)
  {
    var u := TrimStart(x);
    TrimEndingText(x);
    Regroup(x, " ", y);
    TrimStartAppend(x, " " + y);
    Regroup(u, " ", y);
    TrimEndPrepend(u + " ", y);
  }

  lemma SplitAt(s: string, k: nat)
    requires k <= |s|
    ensures s == s[..k] + s[k..]
  {
  }

  lemma Regroup(a: string, b: string, c: string)
    ensures a + b + c == a + (b + c)
  {
  }
}
