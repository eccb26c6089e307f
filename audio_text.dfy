/**
 * The chatbot's text-to-speech sanitiser `clean_text_for_audio` and its
 * reply-language tables.
 *
 * The sanitiser is three regular-expression substitutions and a strip:
 *   1. `[*#\n]`        -> " "   (markdown emphasis, headings, line breaks)
 *   2. `[^\w\s.,!?]`   -> ""    (emoji and other symbols)
 *   3. `\s+`           -> " "   (whitespace runs)
 *   4. `strip()`
 * Python's Unicode word class `\w` is a parameter `isWord`; all the model
 * needs of it is that it excludes `*`, `#` and every whitespace character,
 * which Python's class does.
 */
module AudioText {
  import opened Text

  /** The punctuation the second substitution spares. */
  predicate IsKeptPunct(c: char) {
    c == '.' || c == ',' || c == '!' || c == '?'
  }

  /** The characters the first substitution turns into spaces. */
  predicate IsMarkup(c: char) {
    c == '*' || c == '#' || c == '\n'
  }

  /** What the model relies on about the word class `\w`. */
  ghost predicate WordClass(isWord: char -> bool) {
    && !isWord('*') && !isWord('#')
    && forall c :: IsWhitespace(c) ==> !isWord(c)
  }

  /** The characters `[^\w\s.,!?]` does not delete. */
  predicate Allowed(isWord: char -> bool, c: char) {
    isWord(c) || IsWhitespace(c) || IsKeptPunct(c)
  }

  /** Step 1: every markup character becomes a space, everything else stays. */
  function ReplaceMarkup(s: string): (r: string)
    ensures |r| == |s|
    ensures forall k :: 0 <= k < |s| && IsMarkup(s[k]) ==> r[k] == ' '
    ensures forall k :: 0 <= k < |s| && !IsMarkup(s[k]) ==> r[k] == s[k]
  {
    if s == [] then []
    else [if IsMarkup(s[0]) then ' ' else s[0]] + ReplaceMarkup(s[1..])
  }

  /** Step 2: keeps, in order, exactly the allowed characters. */
  function DropSymbols(isWord: char -> bool, s: string): (r: string)
    ensures |r| <= |s|
    ensures forall c :: c in r ==> Allowed(isWord, c) && c in s
  {
    if s == [] then []
    else if Allowed(isWord, s[0]) then [s[0]] + DropSymbols(isWord, s[1..])
    else DropSymbols(isWord, s[1..])
  }

  /** No two consecutive spaces. */
  ghost predicate NoDoubleSpace(s: string) {
    forall i, j :: 0 <= i < j < |s| && j == i + 1 ==> s[i] != ' ' || s[j] != ' '
  }

  /**
   * Step 3: each maximal run of whitespace becomes one space. Every other
   * character of the input survives, so the output is empty only for empty
   * input and starts with a space exactly when the input starts with
   * whitespace.
   */
  function CollapseWhitespace(s: string): (r: string)
    ensures |r| <= |s|
    ensures forall c :: c in r ==> c == ' ' || (c in s && !IsWhitespace(c))
    ensures NoDoubleSpace(r)
    ensures s != [] ==> r != [] && (r[0] == ' ' <==> IsWhitespace(s[0]))
    decreases |s|
  {
    if s == [] then []
    else if IsWhitespace(s[0]) then
      [' '] + CollapseWhitespace(TrimStart(s))
    else
      [s[0]] + CollapseWhitespace(s[1..])
  }

  /** `clean_text_for_audio` (chatbot2.py): the four steps in order. */
  function Clean(isWord: char -> bool, s: string): (r: string)
    ensures |r| <= |s|
  {
    Strip(CollapseWhitespace(DropSymbols(isWord, ReplaceMarkup(s))))
  }

  /** The normal form of the sanitiser's output. */
  ghost predicate Speakable(isWord: char -> bool, t: string) {
    && (forall c :: c in t ==> SpeakableChar(isWord, c))
    && NoDoubleSpace(t)
    && (t == [] || (t[0] != ' ' && t[|t| - 1] != ' '))
  }

  /** Strip returns a slice of its argument. */
  lemma StripSlice(u: string) returns (i: nat, j: nat)
    ensures i <= j <= |u| && Strip(u) == u[i..j]
    ensures forall k :: 0 <= k < i ==> IsWhitespace(u[k])
    ensures forall k :: j <= k < |u| ==> IsWhitespace(u[k])
  {
    i, j :| && 0 <= i <= j <= |u| && Strip(u) == u[i..j]
            && (forall k :: 0 <= k < i ==> IsWhitespace(u[k]))
            && (forall k :: j <= k < |u| ==> IsWhitespace(u[k]));
  }

  /** A character the sanitiser may emit. */
  predicate SpeakableChar(isWord: char -> bool, c: char) {
    c == ' ' || isWord(c) || IsKeptPunct(c)
  }

  lemma SliceChars(u: string, i: nat, j: nat)
    requires i <= j <= |u|
    ensures forall c :: c in u[i..j] ==> c in u
  {
    forall c | c in u[i..j] ensures c in u {
      var k :| 0 <= k < j - i && u[i..j][k] == c;
      assert u[i + k] == c;
    }
  }

  lemma SliceNoDoubleSpace(u: string, i: nat, j: nat)
    requires i <= j <= |u| && NoDoubleSpace(u)
    ensures NoDoubleSpace(u[i..j])
  {
    var r := u[i..j];
    forall a, b | 0 <= a < b < |r| && b == a + 1 ensures r[a] != ' ' || r[b] != ' ' {
      assert r[a] == u[i + a] && r[b] == u[i + b];
    }
  }

  /** Stripping only removes characters. */
  lemma StripKeepsChars(u: string)
    ensures forall c :: c in Strip(u) ==> c in u
  {
    var i, j := StripSlice(u);
    SliceChars(u, i, j);
  }

  /** Stripping cannot bring two spaces together. */
  lemma StripKeepsNoDoubleSpace(u: string)
    requires NoDoubleSpace(u)
    ensures NoDoubleSpace(Strip(u))
  {
    var i, j := StripSlice(u);
    SliceNoDoubleSpace(u, i, j);
  }

  /**
   * Every character of the output is a word character, a space or one of
   * `. , ! ?`; in particular none is `*`, `#` or a line break, and the only
   * whitespace character that occurs is the plain space.
   */
  lemma CleanCharacterSet(isWord: char -> bool, s: string)
    requires WordClass(isWord)
    ensures forall c :: c in Clean(isWord, s) ==>
      && SpeakableChar(isWord, c) && !IsMarkup(c) && (IsWhitespace(c) ==> c == ' ')
  {
    var r := ReplaceMarkup(s);
    ReplaceMarkupNoMarkup(s);
    var d := DropSymbols(isWord, r);
    assert forall c :: c in d ==> Allowed(isWord, c) && !IsMarkup(c);
    var u := CollapseWhitespace(d);
    assert forall c :: c in u ==> c == ' ' || (SpeakableChar(isWord, c) && !IsWhitespace(c) && !IsMarkup(c));
    StripKeepsChars(u);
  }

  /** Step 1 leaves no markup character. */
  lemma ReplaceMarkupNoMarkup(s: string)
    ensures forall c :: c in ReplaceMarkup(s) ==> !IsMarkup(c)
  {
    var r := ReplaceMarkup(s);
    forall c | c in r ensures !IsMarkup(c) {
      var k :| 0 <= k < |r| && r[k] == c;
    }
  }

  /**
   * The output is in whitespace normal form: no two adjacent spaces and no
   * leading or trailing whitespace.
   */
  lemma CleanWhitespaceForm(isWord: char -> bool, s: string)
    ensures NoDoubleSpace(Clean(isWord, s))
    ensures Trimmed(Clean(isWord, s))
  {
    StripKeepsNoDoubleSpace(CollapseWhitespace(DropSymbols(isWord, ReplaceMarkup(s))));
  }

  /** The output is always in the normal form. */
  lemma CleanSpeakable(isWord: char -> bool, s: string)
    requires WordClass(isWord)
    ensures Speakable(isWord, Clean(isWord, s))
  {
    CleanCharacterSet(isWord, s);
    CleanWhitespaceForm(isWord, s);
  }

  // ---- Content: the spoken characters are exactly the kept input characters ----

  function RemoveSpaces(s: string): string {
    if s == [] then [] else (if s[0] == ' ' then [] else [s[0]]) + RemoveSpaces(s[1..])
  }

  function RemoveWhitespace(s: string): string {
    if s == [] then [] else (if IsWhitespace(s[0]) then [] else [s[0]]) + RemoveWhitespace(s[1..])
  }

  /** The characters of the input that can reach the output: word characters and `. , ! ?`. */
  function Kept(isWord: char -> bool, s: string): string {
    if s == [] then []
    else (if isWord(s[0]) || IsKeptPunct(s[0]) then [s[0]] else []) + Kept(isWord, s[1..])
  }

  lemma {:induction false} RemoveSpacesAppend(a: string, b: string)
    ensures RemoveSpaces(a + b) == RemoveSpaces(a) + RemoveSpaces(b)
  {
    if a != [] {
      assert (a + b)[0] == a[0] && (a + b)[1..] == a[1..] + b;
      RemoveSpacesAppend(a[1..], b);
    } else {
      assert a + b == b;
    }
  }

  lemma {:induction false} RemoveWhitespaceAppend(a: string, b: string)
    ensures RemoveWhitespace(a + b) == RemoveWhitespace(a) + RemoveWhitespace(b)
  {
    if a != [] {
      assert (a + b)[0] == a[0] && (a + b)[1..] == a[1..] + b;
      RemoveWhitespaceAppend(a[1..], b);
    } else {
      assert a + b == b;
    }
  }

  lemma {:induction false} RemoveWhitespaceOfWhitespace(s: string)
    requires forall k :: 0 <= k < |s| ==> IsWhitespace(s[k])
    ensures RemoveWhitespace(s) == []
  {
    if s != [] { RemoveWhitespaceOfWhitespace(s[1..]); }
  }

  lemma {:induction false} KeptIgnoresMarkup(isWord: char -> bool, s: string)
    requires WordClass(isWord)
    ensures Kept(isWord, ReplaceMarkup(s)) == Kept(isWord, s)
  {
    if s != [] {
      KeptIgnoresMarkup(isWord, s[1..]);
      assert ReplaceMarkup(s)[1..] == ReplaceMarkup(s[1..]);
    }
  }

  lemma {:induction false} DropThenRemoveWhitespace(isWord: char -> bool, s: string)
    requires WordClass(isWord)
    ensures RemoveWhitespace(DropSymbols(isWord, s)) == Kept(isWord, s)
  {
    if s != [] {
      DropThenRemoveWhitespace(isWord, s[1..]);
      if Allowed(isWord, s[0]) {
        assert DropSymbols(isWord, s)[1..] == DropSymbols(isWord, s[1..]);
      }
    }
  }

  lemma {:induction false} CollapseThenRemoveSpaces(s: string)
    ensures RemoveSpaces(CollapseWhitespace(s)) == RemoveWhitespace(s)
    decreases |s|
  {
    if s != [] {
      if IsWhitespace(s[0]) {
        var t := TrimStart(s);
        var n := |s| - |t|;
        assert s == s[..n] + t;
        CollapseThenRemoveSpaces(t);
        RemoveSpacesAppend([' '], CollapseWhitespace(t));
        RemoveWhitespaceAppend(s[..n], t);
        RemoveWhitespaceOfWhitespace(s[..n]);
      } else {
        assert CollapseWhitespace(s)[1..] == CollapseWhitespace(s[1..]);
        CollapseThenRemoveSpaces(s[1..]);
      }
    }
  }

  lemma {:induction false} TrimStartRemoveSpaces(u: string)
    requires forall c :: c in u && IsWhitespace(c) ==> c == ' '
    ensures RemoveSpaces(TrimStart(u)) == RemoveSpaces(u)
  {
    if u != [] && IsWhitespace(u[0]) {
      var t := u[1..];
      assert u[0] in u && u == [' '] + t;
      assert forall c :: c in t ==> c in u;
      TrimStartRemoveSpaces(t);
      assert TrimStart(u) == TrimStart(t);
      assert RemoveSpaces(u) == RemoveSpaces(t);
    }
  }

  lemma {:induction false} TrimEndRemoveSpaces(u: string)
    requires forall c :: c in u && IsWhitespace(c) ==> c == ' '
    ensures RemoveSpaces(TrimEnd(u)) == RemoveSpaces(u)
  {
    if u != [] && IsWhitespace(u[|u| - 1]) {
      var n := |u| - 1;
      var t := u[..n];
      assert u[n] in u && u == t + [' '];
      assert forall c :: c in t ==> c in u;
      TrimEndRemoveSpaces(t);
      assert TrimEnd(u) == TrimEnd(t);
      RemoveSpacesAppend(t, [' ']);
    }
  }

  lemma StripThenRemoveSpaces(u: string)
    requires forall c :: c in u && IsWhitespace(c) ==> c == ' '
    ensures RemoveSpaces(Strip(u)) == RemoveSpaces(u)
  {
    TrimStartRemoveSpaces(u);
    TrimEndRemoveSpaces(TrimStart(u));
  }

  /**
   * Order preservation: deleting the spaces from the output leaves exactly
   * the input's word characters and `. , ! ?`, in their original order.
   */
  lemma CleanPreservesContent(isWord: char -> bool, s: string)
    requires WordClass(isWord)
    ensures RemoveSpaces(Clean(isWord, s)) == Kept(isWord, s)
  {
    var d := DropSymbols(isWord, ReplaceMarkup(s));
    StripThenRemoveSpaces(CollapseWhitespace(d));
    CollapseThenRemoveSpaces(d);
    DropThenRemoveWhitespace(isWord, ReplaceMarkup(s));
    KeptIgnoresMarkup(isWord, s);
  }

  // ---- Idempotence ----

  lemma {:induction false} ReplaceMarkupIdentity(s: string)
    requires forall c :: c in s ==> !IsMarkup(c)
    ensures ReplaceMarkup(s) == s
  {
    if s != [] { ReplaceMarkupIdentity(s[1..]); }
  }

  lemma {:induction false} DropSymbolsIdentity(isWord: char -> bool, s: string)
    requires forall c :: c in s ==> Allowed(isWord, c)
    ensures DropSymbols(isWord, s) == s
  {
    if s != [] { DropSymbolsIdentity(isWord, s[1..]); }
  }

  lemma TrimSingleSpace(s: string)
    requires s != [] && IsWhitespace(s[0])
    requires forall c :: c in s && IsWhitespace(c) ==> c == ' '
    requires NoDoubleSpace(s)
    ensures TrimStart(s) == s[1..]
  {
    if |s| > 1 {
      assert s[0] == ' ' && s[1] in s;
    }
  }

  lemma {:induction false} CollapseIdentity(s: string)
    requires forall c :: c in s && IsWhitespace(c) ==> c == ' '
    requires NoDoubleSpace(s)
    ensures CollapseWhitespace(s) == s
    decreases |s|
  {
    if s != [] {
      var t := s[1..];
      SliceChars(s, 1, |s|);
      SliceNoDoubleSpace(s, 1, |s|);
      CollapseIdentity(t);
      if IsWhitespace(s[0]) {
        assert s[0] in s;
        TrimSingleSpace(s);
        assert CollapseWhitespace(s) == [' '] + CollapseWhitespace(t);
      } else {
        assert CollapseWhitespace(s) == [s[0]] + CollapseWhitespace(t);
      }
      assert s == [s[0]] + t;
    }
  }

  /** Text already in the normal form passes through the sanitiser unchanged. */
  lemma CleanFixesSpeakable(isWord: char -> bool, t: string)
    requires WordClass(isWord)
    requires Speakable(isWord, t)
    ensures Clean(isWord, t) == t
  {
    assert !isWord('\n');
    ReplaceMarkupIdentity(t);
    DropSymbolsIdentity(isWord, t);
    CollapseIdentity(t);
    StripOfTrimmed(t);
  }

  /** Cleaning twice is the same as cleaning once. */
  lemma CleanIdempotent(isWord: char -> bool, s: string)
    requires WordClass(isWord)
    ensures Clean(isWord, Clean(isWord, s)) == Clean(isWord, s)
  {
    CleanSpeakable(isWord, s);
    CleanFixesSpeakable(isWord, Clean(isWord, s));
  }

  // ---- Word separation ----

  /** Step 1 works character by character. */
  lemma {:induction false} ReplaceMarkupAppend(a: string, b: string)
    ensures ReplaceMarkup(a + b) == ReplaceMarkup(a) + ReplaceMarkup(b)
  {
    if a == [] {
      assert a + b == b;
    } else {
      assert (a + b)[0] == a[0] && (a + b)[1..] == a[1..] + b;
      ReplaceMarkupAppend(a[1..], b);
    }
  }

  /**
   * Step 2 works character by character: it distributes over
   * concatenation and keeps a single character exactly when it is allowed.
   */
  lemma {:induction false} DropSymbolsAppend(isWord: char -> bool, a: string, b: string)
    ensures DropSymbols(isWord, a + b) == DropSymbols(isWord, a) + DropSymbols(isWord, b)
  {
    if a == [] {
      assert a + b == b;
    } else {
      assert (a + b)[0] == a[0] && (a + b)[1..] == a[1..] + b;
      DropSymbolsAppend(isWord, a[1..], b);
    }
  }

  lemma DropSymbolsSingle(isWord: char -> bool, c: char)
    ensures DropSymbols(isWord, [c]) == if Allowed(isWord, c) then [c] else []
  {
  }

  /** Step 2 loses no allowed character. */
  lemma {:induction false} DropSymbolsKeepsAllowed(isWord: char -> bool, s: string)
    ensures forall c :: c in s && Allowed(isWord, c) ==> c in DropSymbols(isWord, s)
  {
    if s != [] {
      DropSymbolsKeepsAllowed(isWord, s[1..]);
      assert forall c :: c in s ==> c == s[0] || c in s[1..];
    }
  }

  /** A run of whitespace followed by non-whitespace is exactly what `lstrip` removes. */
  lemma {:induction false} TrimStartRun(w: string, t: string)
    requires forall k :: 0 <= k < |w| ==> IsWhitespace(w[k])
    requires t == [] || !IsWhitespace(t[0])
    ensures TrimStart(w + t) == t
  {
    if w == [] {
      assert w + t == t;
    } else {
      assert (w + t)[0] == w[0] && (w + t)[1..] == w[1..] + t;
      TrimStartRun(w[1..], t);
    }
  }

  /** Step 3 turns a whole whitespace run into exactly one space. */
  lemma CollapseRun(w: string, t: string)
    requires w != [] && forall k :: 0 <= k < |w| ==> IsWhitespace(w[k])
    requires t == [] || !IsWhitespace(t[0])
    ensures CollapseWhitespace(w + t) == [' '] + CollapseWhitespace(t)
  {
    assert (w + t)[0] == w[0];
    TrimStartRun(w, t);
  }

  /** Step 3 splits at any point just after a non-whitespace character. */
  lemma {:induction false} CollapseAppend(x: string, y: string)
    requires x == [] || !IsWhitespace(x[|x| - 1])
    ensures CollapseWhitespace(x + y) == CollapseWhitespace(x) + CollapseWhitespace(y)
    decreases |x|
  {
    if x == [] {
      assert x + y == y;
    } else if IsWhitespace(x[0]) {
      var t := TrimStart(x);
      TrimStartAppend(x, y, |x| - 1);
      TrimStartKeepsLast(x);
      CollapseAppend(t, y);
      CollapseWhitespaceStep(x, y, t);
    } else {
      assert (x + y)[1..] == x[1..] + y;
      CollapseAppend(x[1..], y);
      CollapseSolidStep(x, y);
    }
  }

  lemma TrimStartKeepsLast(x: string)
    requires x != [] && !IsWhitespace(x[|x| - 1])
    ensures var t := TrimStart(x); t != [] && t[|t| - 1] == x[|x| - 1]
  {
  }

  lemma CollapseWhitespaceStep(x: string, y: string, t: string)
    requires x != [] && IsWhitespace(x[0]) && t == TrimStart(x) && TrimStart(x + y) == t + y
    requires CollapseWhitespace(t + y) == CollapseWhitespace(t) + CollapseWhitespace(y)
    ensures CollapseWhitespace(x + y) == CollapseWhitespace(x) + CollapseWhitespace(y)
  {
    var ct, cy := CollapseWhitespace(t), CollapseWhitespace(y);
    assert CollapseWhitespace(x + y) == [' '] + CollapseWhitespace(t + y) by { assert (x + y)[0] == x[0]; }
    assert CollapseWhitespace(x) == [' '] + ct;
    SeqAssoc([' '], ct, cy);
  }

  /**
   * Regrouping a concatenation. Stated apart so that the step lemmas use it
   * without the solver unfolding the string functions around it.
   */
  lemma SeqAssoc(a: string, b: string, c: string)
    ensures a + (b + c) == (a + b) + c
  {
  }

  lemma CollapseSolidStep(x: string, y: string)
    requires x != [] && !IsWhitespace(x[0]) && (x + y)[1..] == x[1..] + y
    requires CollapseWhitespace(x[1..] + y) == CollapseWhitespace(x[1..]) + CollapseWhitespace(y)
    ensures CollapseWhitespace(x + y) == CollapseWhitespace(x) + CollapseWhitespace(y)
  {
    assert (x + y)[0] == x[0];
  }

  /** Step 3 keeps a final non-whitespace character last. */
  lemma {:induction false} CollapseLast(x: string)
    requires x != [] && !IsWhitespace(x[|x| - 1])
    ensures var r := CollapseWhitespace(x); r != [] && r[|r| - 1] == x[|x| - 1]
    decreases |x|
  {
    if IsWhitespace(x[0]) {
      CollapseLast(TrimStart(x));
    } else if |x| > 1 {
      CollapseLast(x[1..]);
    }
  }

  /** A word character or one of `. , ! ?`: what is spoken. */
  predicate Solid(isWord: char -> bool, c: char) {
    isWord(c) || IsKeptPunct(c)
  }

  /** A spoken character is neither markup nor whitespace, and step 2 keeps it. */
  lemma SolidIsPlain(isWord: char -> bool, c: char)
    requires WordClass(isWord) && Solid(isWord, c)
    ensures !IsMarkup(c) && !IsWhitespace(c) && Allowed(isWord, c)
  {
    assert !isWord('\n');
  }

  /** Steps 1 and 2 keep a final spoken character last. */
  lemma EndsSolid(isWord: char -> bool, a: string)
    requires WordClass(isWord)
    requires a != [] && Solid(isWord, a[|a| - 1])
    ensures var d := DropSymbols(isWord, ReplaceMarkup(a)); d != [] && d[|d| - 1] == a[|a| - 1]
  {
    var n := |a| - 1;
    var l, a0 := a[n], a[..n];
    SolidIsPlain(isWord, l);
    assert a == a0 + [l];
    ReplaceMarkupAppend(a0, [l]);
    var r0 := ReplaceMarkup(a0);
    assert ReplaceMarkup([l]) == [l];
    DropSymbolsAppend(isWord, r0, [l]);
    assert DropSymbols(isWord, [l]) == [l];
  }

  /** Steps 1 and 2 keep a first spoken character first. */
  lemma StartsSolid(isWord: char -> bool, b: string)
    requires WordClass(isWord)
    requires b != [] && Solid(isWord, b[0])
    ensures var d := DropSymbols(isWord, ReplaceMarkup(b)); d != [] && d[0] == b[0]
  {
    SolidIsPlain(isWord, b[0]);
  }

  /**
   * Steps 1 and 2 on a joined text: a gap of unspoken characters with
   * whitespace or markup at position `k` becomes non-empty whitespace.
   */
  lemma PrepareJoin(isWord: char -> bool, a: string, gap: string, k: nat, b: string)
    requires WordClass(isWord)
    requires forall i :: 0 <= i < |gap| ==> !Solid(isWord, gap[i])
    requires k < |gap| && (IsWhitespace(gap[k]) || IsMarkup(gap[k]))
    ensures var g := DropSymbols(isWord, ReplaceMarkup(gap));
      && g != [] && (forall i :: 0 <= i < |g| ==> IsWhitespace(g[i]))
      && DropSymbols(isWord, ReplaceMarkup(a + gap + b))
         == DropSymbols(isWord, ReplaceMarkup(a)) + g + DropSymbols(isWord, ReplaceMarkup(b))
  {
    var rg := ReplaceMarkup(gap);
    var g := DropSymbols(isWord, rg);
    assert forall c :: c in rg ==> c == ' ' || !Solid(isWord, c) by {
      forall c | c in rg ensures c == ' ' || !Solid(isWord, c) {
        var i :| 0 <= i < |rg| && rg[i] == c;
      }
    }
    assert forall i :: 0 <= i < |g| ==> IsWhitespace(g[i]) by {
      forall i | 0 <= i < |g| ensures IsWhitespace(g[i]) {
        assert g[i] in g;
      }
    }
    assert IsWhitespace(rg[k]) && rg[k] in rg;
    DropSymbolsKeepsAllowed(isWord, rg);
    assert rg[k] in g;
    ReplaceMarkupAppend(a + gap, b);
    ReplaceMarkupAppend(a, gap);
    var ra, rb := ReplaceMarkup(a), ReplaceMarkup(b);
    DropSymbolsAppend(isWord, ra + rg, rb);
    DropSymbolsAppend(isWord, ra, rg);
  }

  /** Step 3 on a joined text: the whitespace between two words becomes one space. */
  lemma CollapseJoin(x: string, g: string, y: string)
    requires x != [] && !IsWhitespace(x[|x| - 1])
    requires g != [] && forall k :: 0 <= k < |g| ==> IsWhitespace(g[k])
    requires y != [] && !IsWhitespace(y[0])
    ensures CollapseWhitespace(x + g + y) == CollapseWhitespace(x) + " " + CollapseWhitespace(y)
  {
    var cx, cy := CollapseWhitespace(x), CollapseWhitespace(y);
    assert x + g + y == x + (g + y);
    CollapseAppend(x, g + y);
    CollapseRun(g, y);
    SeqAssoc(cx, " ", cy);
  }

  /** Step 4 on a joined text: stripping leaves the inner space alone. */
  lemma StripJoin(p: string, q: string)
    requires p != [] && !IsWhitespace(p[|p| - 1])
    requires q != [] && !IsWhitespace(q[0])
    ensures Strip(p + " " + q) == Strip(p) + " " + Strip(q)
  {
    var tp := TrimStart(p);
    TrimStartAppend(p, " " + q, |p| - 1);
    SeqAssoc(p, " ", q);
    SeqAssoc(tp, " ", q);
    TrimEndAppend(tp + " ", q, 0);
    assert tp != [] && tp[|tp| - 1] == p[|p| - 1];
    assert TrimStart(q) == q;
  }

  /**
   * Words stay apart: joining two texts, the first ending and the second
   * starting with a spoken character, by a gap of unspoken characters that
   * holds some whitespace or markup (at position `k`), cleans to the two
   * cleaned texts joined by one space.
   */
  lemma CleanJoin(isWord: char -> bool, a: string, gap: string, k: nat, b: string)
    requires WordClass(isWord)
    requires a != [] && Solid(isWord, a[|a| - 1])
    requires b != [] && Solid(isWord, b[0])
    requires forall i :: 0 <= i < |gap| ==> !Solid(isWord, gap[i])
    requires k < |gap| && (IsWhitespace(gap[k]) || IsMarkup(gap[k]))
    ensures Clean(isWord, a + gap + b) == Clean(isWord, a) + " " + Clean(isWord, b)
  {
    var da, db := DropSymbols(isWord, ReplaceMarkup(a)), DropSymbols(isWord, ReplaceMarkup(b));
    PrepareJoin(isWord, a, gap, k, b);
    EndsSolid(isWord, a);
    SolidIsPlain(isWord, a[|a| - 1]);
    StartsSolid(isWord, b);
    SolidIsPlain(isWord, b[0]);
    CollapseJoin(da, DropSymbols(isWord, ReplaceMarkup(gap)), db);
    var p, q := CollapseWhitespace(da), CollapseWhitespace(db);
    CollapseLast(da);
    assert q[0] in q;
    StripJoin(p, q);
  }

  /**
   * Two runs of spoken characters separated by whitespace, markup and
   * symbols, with some whitespace or markup among them, are read as two
   * words with one space between them.
   */
  lemma CleanSeparatesWords(isWord: char -> bool, a: string, gap: string, k: nat, b: string)
    requires WordClass(isWord)
    requires a != [] && forall i :: 0 <= i < |a| ==> Solid(isWord, a[i])
    requires b != [] && forall i :: 0 <= i < |b| ==> Solid(isWord, b[i])
    requires forall i :: 0 <= i < |gap| ==> !Solid(isWord, gap[i])
    requires k < |gap| && (IsWhitespace(gap[k]) || IsMarkup(gap[k]))
    ensures Clean(isWord, a + gap + b) == a + " " + b
  {
    CleanJoin(isWord, a, gap, k, b);
    CleanOfSolid(isWord, a);
    CleanOfSolid(isWord, b);
  }

  /** A two-line heading is read as two words: "Fort\n\nPalace" becomes "Fort Palace". */
  lemma ScenarioLineBreaks(isWord: char -> bool)
    requires WordClass(isWord)
    requires forall c :: 'A' <= c <= 'Z' || 'a' <= c <= 'z' ==> isWord(c)
    ensures Clean(isWord, "Fort\n\nPalace") == "Fort Palace"
  {
    var a, gap, b := "Fort", "\n\n", "Palace";
    assert a + gap + b == "Fort\n\nPalace";
    assert a + " " + b == "Fort Palace";
    assert forall i :: 0 <= i < |a| ==> 'a' <= a[i] <= 'z' || 'A' <= a[i] <= 'Z';
    assert forall i :: 0 <= i < |b| ==> 'a' <= b[i] <= 'z' || 'A' <= b[i] <= 'Z';
    assert forall i :: 0 <= i < |gap| ==> gap[i] == '\n';
    CleanSeparatesWords(isWord, a, gap, 0, b);
  }

  /** An emoji between words is dropped: "Fort 🏰 Palace" becomes "Fort Palace". */
  lemma ScenarioEmoji(isWord: char -> bool)
    requires WordClass(isWord) && !isWord('\U{1F3F0}')
    requires forall c :: 'A' <= c <= 'Z' || 'a' <= c <= 'z' ==> isWord(c)
    ensures Clean(isWord, "Fort \U{1F3F0} Palace") == "Fort Palace"
  {
    var a, gap, b := "Fort", " \U{1F3F0} ", "Palace";
    assert a + gap + b == "Fort \U{1F3F0} Palace";
    assert a + " " + b == "Fort Palace";
    assert forall i :: 0 <= i < |a| ==> 'a' <= a[i] <= 'z' || 'A' <= a[i] <= 'Z';
    assert forall i :: 0 <= i < |b| ==> 'a' <= b[i] <= 'z' || 'A' <= b[i] <= 'Z';
    assert forall i :: 0 <= i < |gap| ==> gap[i] == ' ' || gap[i] == '\U{1F3F0}';
    CleanSeparatesWords(isWord, a, gap, 0, b);
  }

  /** Step 2 deletes a text made only of characters it does not allow. */
  lemma {:induction false} DropSymbolsNone(isWord: char -> bool, s: string)
    requires forall i :: 0 <= i < |s| ==> !Allowed(isWord, s[i])
    ensures DropSymbols(isWord, s) == []
  {
    if s != [] {
      DropSymbolsNone(isWord, s[1..]);
    }
  }

  /** Steps 1 and 2 on a joined text: a gap of symbols step 2 deletes vanishes. */
  lemma PrepareGlue(isWord: char -> bool, a: string, gap: string, b: string)
    requires forall i :: 0 <= i < |gap| ==> !Allowed(isWord, gap[i]) && !IsMarkup(gap[i])
    ensures DropSymbols(isWord, ReplaceMarkup(a + gap + b))
         == DropSymbols(isWord, ReplaceMarkup(a)) + DropSymbols(isWord, ReplaceMarkup(b))
  {
    assert ReplaceMarkup(gap) == gap;
    DropSymbolsNone(isWord, gap);
    ReplaceMarkupAppend(a + gap, b);
    ReplaceMarkupAppend(a, gap);
    var ra, rb := ReplaceMarkup(a), ReplaceMarkup(b);
    DropSymbolsAppend(isWord, ra + gap, rb);
    DropSymbolsAppend(isWord, ra, gap);
  }

  /** Step 4 on two texts that meet at non-whitespace: nothing at the seam is stripped. */
  lemma StripConcat(p: string, q: string)
    requires p != [] && !IsWhitespace(p[|p| - 1])
    requires q != [] && !IsWhitespace(q[0])
    ensures Strip(p + q) == Strip(p) + Strip(q)
  {
    var tp := TrimStart(p);
    TrimStartAppend(p, q, |p| - 1);
    TrimEndAppend(tp, q, 0);
    TrimStartKeepsLast(p);
    assert TrimEnd(tp) == tp;
    assert TrimStart(q) == q;
  }

  /**
   * Symbols alone do not separate words: joining two texts, the first
   * ending and the second starting with a spoken character, by characters
   * that step 2 deletes and step 1 leaves alone (emoji, say), cleans to the
   * two cleaned texts with nothing between them.
   */
  lemma CleanGlue(isWord: char -> bool, a: string, gap: string, b: string)
    requires WordClass(isWord)
    requires a != [] && Solid(isWord, a[|a| - 1])
    requires b != [] && Solid(isWord, b[0])
    requires forall i :: 0 <= i < |gap| ==> !Allowed(isWord, gap[i]) && !IsMarkup(gap[i])
    ensures Clean(isWord, a + gap + b) == Clean(isWord, a) + Clean(isWord, b)
  {
    var da, db := DropSymbols(isWord, ReplaceMarkup(a)), DropSymbols(isWord, ReplaceMarkup(b));
    PrepareGlue(isWord, a, gap, b);
    EndsSolid(isWord, a);
    SolidIsPlain(isWord, a[|a| - 1]);
    StartsSolid(isWord, b);
    SolidIsPlain(isWord, b[0]);
    CollapseAppend(da, db);
    var p, q := CollapseWhitespace(da), CollapseWhitespace(db);
    CollapseLast(da);
    assert q[0] in q;
    StripConcat(p, q);
  }

  /** Two words of spoken characters separated only by deleted symbols are read as one word. */
  lemma CleanGluesWords(isWord: char -> bool, a: string, gap: string, b: string)
    requires WordClass(isWord)
    requires a != [] && forall i :: 0 <= i < |a| ==> Solid(isWord, a[i])
    requires b != [] && forall i :: 0 <= i < |b| ==> Solid(isWord, b[i])
    requires forall i :: 0 <= i < |gap| ==> !Allowed(isWord, gap[i]) && !IsMarkup(gap[i])
    ensures Clean(isWord, a + gap + b) == a + b
  {
    CleanGlue(isWord, a, gap, b);
    CleanOfSolid(isWord, a);
    CleanOfSolid(isWord, b);
  }

  /** An emoji with no space around it joins the words: "Fort🏰Palace" becomes "FortPalace". */
  lemma ScenarioGlued(isWord: char -> bool)
    requires WordClass(isWord) && !isWord('\U{1F3F0}')
    requires forall c :: 'A' <= c <= 'Z' || 'a' <= c <= 'z' ==> isWord(c)
    ensures Clean(isWord, "Fort\U{1F3F0}Palace") == "FortPalace"
  {
    var a, gap, b := "Fort", "\U{1F3F0}", "Palace";
    assert a + gap + b == "Fort\U{1F3F0}Palace";
    assert a + b == "FortPalace";
    assert forall i :: 0 <= i < |a| ==> 'a' <= a[i] <= 'z' || 'A' <= a[i] <= 'Z';
    assert forall i :: 0 <= i < |b| ==> 'a' <= b[i] <= 'z' || 'A' <= b[i] <= 'Z';
    assert forall i :: 0 <= i < |gap| ==> gap[i] == '\U{1F3F0}';
    CleanGluesWords(isWord, a, gap, b);
  }

  /** A single word of spoken characters is already clean. */
  lemma CleanOfSolid(isWord: char -> bool, a: string)
    requires WordClass(isWord)
    requires forall k :: 0 <= k < |a| ==> Solid(isWord, a[k])
    ensures Clean(isWord, a) == a
  {
    assert !isWord(' ');
    assert forall c :: c in a ==> Solid(isWord, c);
    assert Speakable(isWord, a);
    CleanFixesSpeakable(isWord, a);
  }

  // ---- Reply-language tables ----

  const IndianLanguages: map<string, string> := map[
    "English" := "en", "Hindi" := "hi", "Tamil" := "ta", "Telugu" := "te",
    "Kannada" := "kn", "Malayalam" := "ml", "Bengali" := "bn", "Gujarati" := "gu",
    "Marathi" := "mr", "Punjabi" := "pa"]

  const ForeignLanguages: map<string, string> := map[
    "French" := "fr", "German" := "de", "Spanish" := "es", "Italian" := "it",
    "Russian" := "ru", "Japanese" := "ja", "Korean" := "ko",
    "Chinese (Mandarin)" := "zh-cn", "Arabic" := "ar"]

  /** `{**a, **b}`: every key of either table; on a shared key the second table wins. */
  function Merge(a: map<string, string>, b: map<string, string>): (m: map<string, string>)
    ensures m.Keys == a.Keys + b.Keys
    ensures forall k :: k in b ==> m[k] == b[k]
    ensures forall k :: k in a && k !in b ==> m[k] == a[k]
  {
    a + b
  }

  /** The merged `languages` table. */
  const Languages: map<string, string> := Merge(IndianLanguages, ForeignLanguages)

  /** No language name is in both tables. */
  lemma LanguageTablesDisjoint()
    ensures IndianLanguages.Keys !! ForeignLanguages.Keys
  {
  }

  /**
   * Because the two tables share no language name, the merged table holds
   * every entry of both unchanged and nothing else, so its size is the sum
   * of theirs.
   */
  lemma LanguagesKeepBothTables()
    ensures forall k :: k in IndianLanguages ==> k in Languages && Languages[k] == IndianLanguages[k]
    ensures forall k :: k in ForeignLanguages ==> k in Languages && Languages[k] == ForeignLanguages[k]
    ensures Languages.Keys == IndianLanguages.Keys + ForeignLanguages.Keys
    ensures |Languages| == |IndianLanguages| + |ForeignLanguages|
  {
    LanguageTablesDisjoint();
    var indian, foreign := IndianLanguages.Keys, ForeignLanguages.Keys;
    assert |indian + foreign| == |indian| + |foreign|;
  }
}
