/**
 * `escapeContent`: the seven-step rewrite that turns spreadsheet text into
 * the character data of an Android string resource, and its characterisation
 * as a character-by-character substitution.
 */
module Escaping {
  import opened Wrappers
  import opened Text

  /** Applies `f` to every character and concatenates the results. */
  function MapChars(s: string, f: char -> string): string {
    if s == [] then [] else f(s[0]) + MapChars(s[1..], f)
  }

  /**
   * `StringEscapeUtils.escapeXml11`, restricted to the five predefined
   * entities of section 4.6 of the XML 1.1 recommendation.
   */
  function XmlEntity(c: char): string {
    if c == '&' then "&amp;"
    else if c == '<' then "&lt;"
    else if c == '>' then "&gt;"
    else if c == '"' then "&quot;"
    else if c == '\'' then "&apos;"
    else [c]
  }

  function EscapeXml11(s: string): string {
    MapChars(s, XmlEntity)
  }

  /** What one character of the un-escaped text becomes in the Android resource. */
  function AndroidEntity(c: char): string {
    if c == '&' then "&amp;"
    else if c == '<' then "&lt;"
    else if c == '>' then "&gt;"
    else if c == '"' then "\""
    else if c == '\'' then "\\'"
    else if c == '@' then "&#064;"
    else [c]
  }

  /** Reference definition of the escaping, one character at a time. */
  function AndroidEscape(s: string): string {
    MapChars(s, AndroidEntity)
  }

  /** Steps 2 and 3: hand-written `\'` and `\@` lose their backslash. */
  function Unescape(s: string): string {
    Replace(Replace(s, "\\'", "'"), "\\@", "@")
  }

  /** `escapeContent`; `None` is a null text. */
  function EscapeContent(text: Option<string>): (r: string)
    ensures text == None ==> r == ""
  {
    var trimmed := if text.Some? then TrimEnd(text.value) else "";
    var quotes := Replace(trimmed, "\\'", "'");
    var ats := Replace(quotes, "\\@", "@");
    var xml := EscapeXml11(ats);
    var apos := Replace(xml, "&apos;", "\\'");
    var quot := Replace(apos, "&quot;", "\"");
    Replace(quot, "@", "&#064;")
  }

  // ---------------------------------------------------------------------
  // The intermediate forms between steps 4 and 7, one character at a time.

  /** After step 5: `&apos;` has become `\'`. */
  function AposEntity(c: char): string {
    if c == '\'' then "\\'" else XmlEntity(c)
  }

  /** After step 6: `&quot;` has become a plain `"` as well. */
  function QuotEntity(c: char): string {
    if c == '"' then "\"" else AposEntity(c)
  }

  lemma {:induction false} MapCharsAppend(a: string, b: string, f: char -> string)
    ensures MapChars(a + b, f) == MapChars(a, f) + MapChars(b, f)
    decreases |a|
  {
    if a != [] {
      assert (a + b)[1..] == a[1..] + b;
      MapCharsAppend(a[1..], b, f);
    } else {
      assert a + b == b;
    }
  }

  /** A replace pass over a per-character image is a per-character image again, when it is one per character. */
  lemma {:induction false} ReplaceMapChars(s: string, f: char -> string, g: char -> string, pat: string, rep: string)
    requires pat != []
    requires forall c: char, rest: string :: Replace(f(c) + rest, pat, rep) == g(c) + Replace(rest, pat, rep)
    ensures Replace(MapChars(s, f), pat, rep) == MapChars(s, g)
    decreases |s|
  {
    if s != [] {
      ReplaceMapChars(s[1..], f, g, pat, rep);
      assert Replace(f(s[0]) + MapChars(s[1..], f), pat, rep) == g(s[0]) + Replace(MapChars(s[1..], f), pat, rep);
    }
  }

  lemma AposStep(c: char, rest: string)
    ensures Replace(XmlEntity(c) + rest, "&apos;", "\\'") == AposEntity(c) + Replace(rest, "&apos;", "\\'")
  {
    var pat, rep := "&apos;", "\\'";
    if c == '\'' {
      ReplaceAtMatch(rest, pat, rep);
    } else if c == '&' {
      NoMatchInside("&amp;", rest, pat, rep, 2);
    } else if c == '<' {
      NoMatchInside("&lt;", rest, pat, rep, 1);
    } else if c == '>' {
      NoMatchInside("&gt;", rest, pat, rep, 1);
    } else if c == '"' {
      NoMatchInside("&quot;", rest, pat, rep, 1);
    } else {
      NoMatchInside([c], rest, pat, rep, 0);
    }
  }

  lemma QuotStep(c: char, rest: string)
    ensures Replace(AposEntity(c) + rest, "&quot;", "\"") == QuotEntity(c) + Replace(rest, "&quot;", "\"")
  {
    var pat, rep := "&quot;", "\"";
    if c == '"' {
      ReplaceAtMatch(rest, pat, rep);
    } else if c == '&' {
      NoMatchInside("&amp;", rest, pat, rep, 1);
    } else if c == '<' {
      NoMatchInside("&lt;", rest, pat, rep, 1);
    } else if c == '>' {
      NoMatchInside("&gt;", rest, pat, rep, 1);
    } else if c == '\'' {
      NoMatchInside("\\'", rest, pat, rep, 0);
    } else {
      NoMatchInside([c], rest, pat, rep, 0);
    }
  }

  lemma AtStep(c: char, rest: string)
    ensures Replace(QuotEntity(c) + rest, "@", "&#064;") == AndroidEntity(c) + Replace(rest, "@", "&#064;")
  {
    var pat, rep := "@", "&#064;";
    if c == '@' {
      ReplaceAtMatch(rest, pat, rep);
    } else if c == '&' {
      NoMatchInside("&amp;", rest, pat, rep, 0);
    } else if c == '<' {
      NoMatchInside("&lt;", rest, pat, rep, 0);
    } else if c == '>' {
      NoMatchInside("&gt;", rest, pat, rep, 0);
    } else if c == '\'' {
      NoMatchInside("\\'", rest, pat, rep, 0);
    } else if c == '"' {
      NoMatchInside("\"", rest, pat, rep, 0);
    } else {
      NoMatchInside([c], rest, pat, rep, 0);
    }
  }

  /**
   * Steps 4 to 7 together are the per-character substitution: nothing that
   * step 4 produces is mistaken for `&apos;`, `&quot;` or `@` by a later step.
   */
  lemma EscapeSteps(u: string)
    ensures Replace(Replace(Replace(EscapeXml11(u), "&apos;", "\\'"), "&quot;", "\""), "@", "&#064;") == AndroidEscape(u)
  {
    forall c: char, rest: string
      ensures Replace(XmlEntity(c) + rest, "&apos;", "\\'") == AposEntity(c) + Replace(rest, "&apos;", "\\'")
    {
      AposStep(c, rest);
    }
    ReplaceMapChars(u, XmlEntity, AposEntity, "&apos;", "\\'");
    forall c: char, rest: string
      ensures Replace(AposEntity(c) + rest, "&quot;", "\"") == QuotEntity(c) + Replace(rest, "&quot;", "\"")
    {
      QuotStep(c, rest);
    }
    ReplaceMapChars(u, AposEntity, QuotEntity, "&quot;", "\"");
    forall c: char, rest: string
      ensures Replace(QuotEntity(c) + rest, "@", "&#064;") == AndroidEntity(c) + Replace(rest, "@", "&#064;")
    {
      AtStep(c, rest);
    }
    ReplaceMapChars(u, QuotEntity, AndroidEntity, "@", "&#064;");
  }

  /** `escapeContent` is trailing-whitespace removal, backslash removal, then the per-character substitution. */
  lemma EscapeContentCharwise(s: string)
    ensures EscapeContent(Some(s)) == AndroidEscape(Unescape(TrimEnd(s)))
  {
    EscapeSteps(Unescape(TrimEnd(s)));
  }

  // ---------------------------------------------------------------------
  // What the output of `escapeContent` looks like.

  /** `r` has a character reference at `i`: one of the four that the escaping writes. */
  predicate StartsReference(r: string, i: int) {
    MatchesAt(r, i, "&amp;") || MatchesAt(r, i, "&lt;") || MatchesAt(r, i, "&gt;") || MatchesAt(r, i, "&#064;")
  }

  /** No raw `<`, `>` or `@`, and every `&` opens a character reference. */
  predicate WellFormed(r: string) {
    && (forall i :: 0 <= i < |r| ==> r[i] != '<' && r[i] != '>' && r[i] != '@')
    && (forall i :: 0 <= i < |r| && r[i] == '&' ==> StartsReference(r, i))
  }

  lemma MatchesAtPrefix(a: string, b: string, i: int, pat: string)
    requires MatchesAt(a, i, pat)
    ensures MatchesAt(a + b, i, pat)
  {
    assert (a + b)[i..i + |pat|] == a[i..i + |pat|];
  }

  lemma WellFormedAppend(a: string, b: string)
    requires WellFormed(a) && WellFormed(b)
    ensures WellFormed(a + b)
  {
    var s := a + b;
    forall i | 0 <= i < |s| && s[i] == '&'
      ensures StartsReference(s, i)
    {
      if i < |a| {
        assert a[i] == '&';
        if MatchesAt(a, i, "&amp;") { MatchesAtPrefix(a, b, i, "&amp;"); }
        if MatchesAt(a, i, "&lt;") { MatchesAtPrefix(a, b, i, "&lt;"); }
        if MatchesAt(a, i, "&gt;") { MatchesAtPrefix(a, b, i, "&gt;"); }
        if MatchesAt(a, i, "&#064;") { MatchesAtPrefix(a, b, i, "&#064;"); }
      } else {
        assert s[|a|..] == b;
        assert b[i - |a|] == '&';
        MatchesAtShift(s, |a|, i - |a|, "&amp;");
        MatchesAtShift(s, |a|, i - |a|, "&lt;");
        MatchesAtShift(s, |a|, i - |a|, "&gt;");
        MatchesAtShift(s, |a|, i - |a|, "&#064;");
      }
    }
  }

  /** A reference on its own is well formed: its only `&` is the one that opens it. */
  lemma ReferenceWellFormed(e: string)
    requires |e| >= 4 && e[0] == '&' && StartsReference(e, 0)
    requires forall i :: 0 < i < |e| ==> e[i] != '&' && e[i] != '<' && e[i] != '>' && e[i] != '@'
    ensures WellFormed(e)
  {
  }

  lemma AndroidEntityWellFormed(c: char)
    ensures WellFormed(AndroidEntity(c))
  {
    var e := AndroidEntity(c);
    if c == '&' || c == '<' || c == '>' || c == '@' {
      assert e[0..] == e;
      ReferenceWellFormed(e);
    }
  }

  lemma {:induction false} AndroidEscapeWellFormed(u: string)
    ensures WellFormed(AndroidEscape(u))
    decreases |u|
  {
    if u == [] {
    } else {
      AndroidEntityWellFormed(u[0]);
      AndroidEscapeWellFormed(u[1..]);
      WellFormedAppend(AndroidEntity(u[0]), AndroidEscape(u[1..]));
    }
  }

  lemma SameMatch(r: string, i: int, p: string, q: string, j: int)
    requires MatchesAt(r, i, p) && MatchesAt(r, i, q) && 0 <= j < |p| && j < |q|
    ensures p[j] == q[j]
  {
    assert r[i..i + |p|][j] == r[i + j] == r[i..i + |q|][j];
  }

  /** Neither `&apos;` nor `&quot;` can occur where every `&` opens one of the four references. */
  lemma WellFormedHasNoAposOrQuot(r: string)
    requires WellFormed(r)
    ensures forall i :: !MatchesAt(r, i, "&apos;") && !MatchesAt(r, i, "&quot;")
  {
    forall i
      ensures !MatchesAt(r, i, "&apos;") && !MatchesAt(r, i, "&quot;")
    {
      if MatchesAt(r, i, "&apos;") || MatchesAt(r, i, "&quot;") {
        var p := if MatchesAt(r, i, "&apos;") then "&apos;" else "&quot;";
        SameMatch(r, i, p, [p[0]] , 0);
        assert r[i..i + |p|][0] == r[i] == '&';
        assert StartsReference(r, i);
        if MatchesAt(r, i, "&amp;") { SameMatch(r, i, p, "&amp;", 1); SameMatch(r, i, p, "&amp;", 2); }
        if MatchesAt(r, i, "&lt;") { SameMatch(r, i, p, "&lt;", 1); }
        if MatchesAt(r, i, "&gt;") { SameMatch(r, i, p, "&gt;", 1); }
        if MatchesAt(r, i, "&#064;") { SameMatch(r, i, p, "&#064;", 1); }
        assert false;
      }
    }
  }

  /**
   * The output never holds a raw `@`, `<` or `>`, never the entity `&apos;`
   * (which Android does not accept) nor `&quot;`, and every `&` opens a
   * character reference.
   */
  lemma EscapeContentWellFormed(text: Option<string>)
    ensures WellFormed(EscapeContent(text))
    ensures forall i :: !MatchesAt(EscapeContent(text), i, "&apos;") && !MatchesAt(EscapeContent(text), i, "&quot;")
  {
    if text.Some? {
      EscapeContentCharwise(text.value);
      AndroidEscapeWellFormed(Unescape(TrimEnd(text.value)));
    }
    WellFormedHasNoAposOrQuot(EscapeContent(text));
  }

  // ---------------------------------------------------------------------
  // Whitespace.

  lemma AndroidEscapeLast(u: string)
    requires u != []
    ensures AndroidEscape(u) != [] && Last(AndroidEscape(u)) == Last(AndroidEntity(Last(u)))
  {
    var n := |u| - 1;
    assert u == u[..n] + [u[n]];
    MapCharsAppend(u[..n], [u[n]], AndroidEntity);
    assert MapChars([u[n]], AndroidEntity) == AndroidEntity(u[n]);
  }

  /** Steps 2 and 3 keep a last character that is not blank, or end in a quote or an at-sign. */
  lemma UnescapeLast(t: string)
    requires t != [] && !IsWhitespace(Last(t))
    ensures Unescape(t) != [] && !IsWhitespace(Last(Unescape(t)))
  {
    ReplaceLast(t, "\\'", "'");
    ReplaceLast(Replace(t, "\\'", "'"), "\\@", "@");
  }

  /** The escaped form of trimmed text does not end in a blank character. */
  lemma EscapedTrimmedNoTrailingWhitespace(s: string)
    ensures var r := AndroidEscape(Unescape(TrimEnd(s))); r == [] || !IsWhitespace(Last(r))
  {
    var t := TrimEnd(s);
    if t != [] {
      UnescapeLast(t);
      AndroidEscapeLast(Unescape(t));
      EntityLast(Last(Unescape(t)));
    } else {
      assert Unescape(t) == [];
    }
  }

  /** Trailing whitespace is dropped: the result never ends in a blank character. */
  lemma EscapeContentNoTrailingWhitespace(text: Option<string>)
    ensures var r := EscapeContent(text); r == [] || !IsWhitespace(Last(r))
  {
    if text.Some? {
      EscapeContentCharwise(text.value);
      EscapedTrimmedNoTrailingWhitespace(text.value);
    }
  }

  lemma {:induction false} MapCharsIdentity(s: string, f: char -> string)
    requires forall i :: 0 <= i < |s| ==> f(s[i]) == [s[i]]
    ensures MapChars(s, f) == s
    decreases |s|
  {
    if s != [] {
      MapCharsIdentity(s[1..], f);
    }
  }

  /** Blank characters pass every replace pass untouched. */
  lemma UnescapeAfterWhitespace(w: string, x: string)
    requires AllWhitespace(w)
    ensures Unescape(w + x) == w + Unescape(x)
  {
    forall i | 0 <= i < |w|
      ensures !MatchesAt(w + x, i, "\\'")
    {
      MismatchAt(w + x, i, "\\'", 0);
    }
    ReplaceSkip(w, x, "\\'", "'");
    var y := Replace(x, "\\'", "'");
    forall i | 0 <= i < |w|
      ensures !MatchesAt(w + y, i, "\\@")
    {
      MismatchAt(w + y, i, "\\@", 0);
    }
    ReplaceSkip(w, y, "\\@", "@");
  }

  /** Characters that neither Android nor XML treat specially. */
  predicate IsPlain(c: char) {
    c != '&' && c != '<' && c != '>' && c != '"' && c != '\'' && c != '@' && c != '\\'
  }

  lemma WhitespaceIsPlain(c: char)
    requires IsWhitespace(c)
    ensures IsPlain(c)
  {
  }

  /** Text made of plain characters is its own escaped form. */
  lemma AndroidEscapePlain(s: string)
    requires forall i :: 0 <= i < |s| ==> IsPlain(s[i])
    ensures AndroidEscape(s) == s
  {
    forall i | 0 <= i < |s|
      ensures AndroidEntity(s[i]) == [s[i]]
    {
    }
    MapCharsIdentity(s, AndroidEntity);
  }

  /** The escaped form of a character that is not blank ends in a character that is not blank. */
  lemma EntityLast(c: char)
    requires !IsWhitespace(c)
    ensures AndroidEntity(c) != [] && !IsWhitespace(Last(AndroidEntity(c)))
  {
  }

  /** Leading whitespace passes steps 1 to 7 untouched. */
  lemma EscapedTrimmedKeepsLeadingWhitespace(w: string, t: string)
    requires AllWhitespace(w) && HasNonWhitespace(t)
    ensures AndroidEscape(Unescape(TrimEnd(w + t))) == w + AndroidEscape(Unescape(TrimEnd(t)))
  {
    var u := Unescape(TrimEnd(t));
    TrimEndAppend(w, t);
    UnescapeAfterWhitespace(w, TrimEnd(t));
    MapCharsAppend(w, u, AndroidEntity);
    forall i | 0 <= i < |w|
      ensures IsPlain(w[i])
    {
      WhitespaceIsPlain(w[i]);
    }
    AndroidEscapePlain(w);
  }

  /** Leading whitespace is kept as it is, in front of the escaping of the rest. */
  lemma EscapeContentKeepsLeadingWhitespace(w: string, t: string)
    requires AllWhitespace(w) && HasNonWhitespace(t)
    ensures EscapeContent(Some(w + t)) == w + EscapeContent(Some(t))
  {
    EscapeContentCharwise(w + t);
    EscapeContentCharwise(t);
    EscapedTrimmedKeepsLeadingWhitespace(w, t);
  }

  /** Text with no special character and no trailing whitespace comes back unchanged. */
  lemma EscapeContentPlain(s: string)
    requires forall i :: 0 <= i < |s| ==> IsPlain(s[i])
    requires s == [] || !IsWhitespace(Last(s))
    ensures EscapeContent(Some(s)) == s
  {
    EscapeContentCharwise(s);
    assert TrimEnd(s) == s;
    ReplaceAbsent(s, "\\'", "'");
    ReplaceAbsent(s, "\\@", "@");
    AndroidEscapePlain(s);
  }

  // ---------------------------------------------------------------------
  // Hand-escaped text is not escaped twice.

  /** Step 1 on `a + (x + b)`, when `x` ends in a character that is not blank. */
  lemma TrimEndMiddle(a: string, x: string, b: string)
    requires x != [] && !IsWhitespace(Last(x))
    ensures TrimEnd(a + (x + b)) == a + (x + TrimEnd(b))
  {
    TrimEndAfter(x, b);
    assert (x + b)[|x| - 1] == Last(x);
    TrimEndAppend(a, x + b);
  }

  /** Texts that agree after steps 1 to 3 agree after all seven. */
  lemma SameEscape(x: string, y: string)
    requires Unescape(TrimEnd(x)) == Unescape(TrimEnd(y))
    ensures EscapeContent(Some(x)) == EscapeContent(Some(y))
  {
    EscapeContentCharwise(x);
    EscapeContentCharwise(y);
  }

  /** Steps 2 and 3: removing the backslash of `\c` maps `a + ("\\c" + b)` and `a + ("c" + b)` to the same text. */
  lemma UnescapeStable(a: string, b: string, c: char)
    requires c != '\\' && (a == [] || Last(a) != '\\')
    ensures Replace(a + (['\\', c] + b), ['\\', c], [c]) == Replace(a + ([c] + b), ['\\', c], [c])
  {
    var pat, rep := ['\\', c], [c];
    ReplaceAfter(a, pat + b, pat, rep);
    ReplaceAfter(a, rep + b, pat, rep);
    ReplaceAtMatch(b, pat, rep);
    NoMatchInside(rep, b, pat, rep, 0);
  }

  /** `\'` and `'` give the same result, unless the backslash is itself escaped by one before it. */
  lemma EscapedQuoteIsStable(a: string, b: string)
    requires a == [] || Last(a) != '\\'
    ensures EscapeContent(Some(a + ("\\'" + b))) == EscapeContent(Some(a + ("'" + b)))
  {
    TrimEndMiddle(a, "\\'", b);
    TrimEndMiddle(a, "'", b);
    UnescapeStable(a, TrimEnd(b), '\'');
    SameEscape(a + ("\\'" + b), a + ("'" + b));
  }

  /** Step 2 does not leave a backslash at the end where there was none. */
  lemma UnquoteKeepsEnd(a: string)
    requires a == [] || Last(a) != '\\'
    ensures var a2 := Replace(a, "\\'", "'"); a2 == [] || Last(a2) != '\\'
  {
    if a != [] {
      ReplaceLast(a, "\\'", "'");
    }
  }

  /** `\@` and `@` give the same result, unless the backslash is itself escaped by one before it. */
  lemma EscapedAtIsStable(a: string, b: string)
    requires a == [] || Last(a) != '\\'
    ensures EscapeContent(Some(a + ("\\@" + b))) == EscapeContent(Some(a + ("@" + b)))
  {
    var b' := TrimEnd(b);
    TrimEndMiddle(a, "\\@", b);
    TrimEndMiddle(a, "@", b);
    ReplaceAround(a, "\\@", b', "\\'", "'", 1);
    ReplaceAround(a, "@", b', "\\'", "'", 0);
    UnquoteKeepsEnd(a);
    UnescapeStable(Replace(a, "\\'", "'"), Replace(b', "\\'", "'"), '@');
    SameEscape(a + ("\\@" + b), a + ("@" + b));
  }

  // ---------------------------------------------------------------------
  // Worked examples.  Each literal is written as a concatenation of short
  // pieces, which the per-character substitution handles one at a time.

  lemma EscapeIts()
    ensures AndroidEscape("It's ") == "It\\'s "
  {
  }

  lemma EscapeQuoted()
    ensures AndroidEscape("\"ok\" ") == "\"ok\" "
  {
  }

  lemma EscapeMention()
    ensures AndroidEscape("@user") == "&#064;user"
  {
  }

  lemma EscapeAmp()
    ensures AndroidEscape("x & ") == "x &amp; "
  {
  }

  lemma EscapeLess()
    ensures AndroidEscape("y < z") == "y &lt; z"
  {
  }

  /** Text without backslashes that ends in a non-whitespace character goes through the substitution alone. */
  lemma EscapeContentOfClean(s: string)
    requires s != [] && !IsWhitespace(Last(s))
    requires forall i :: 0 <= i < |s| ==> s[i] != '\\'
    ensures EscapeContent(Some(s)) == AndroidEscape(s)
  {
    TrimEndAfter(s, "");
    assert s + "" == s;
    ReplaceAbsent(s, "\\'", "'");
    ReplaceAbsent(s, "\\@", "@");
    EscapeContentCharwise(s);
  }

  /** `It's "ok" @user` becomes `It\'s "ok" &#064;user`. */
  lemma EscapeContentSample()
    ensures EscapeContent(Some("It's " + ("\"ok\" " + "@user"))) == "It\\'s " + ("\"ok\" " + "&#064;user")
  {
    EscapeContentOfClean("It's " + ("\"ok\" " + "@user"));
    EscapeIts();
    EscapeQuoted();
    EscapeMention();
    MapCharsAppend("\"ok\" ", "@user", AndroidEntity);
    MapCharsAppend("It's ", "\"ok\" " + "@user", AndroidEntity);
  }

  /** `x & y < z` becomes `x &amp; y &lt; z`. */
  lemma EscapeContentMarkupSample()
    ensures EscapeContent(Some("x & " + "y < z")) == "x &amp; " + "y &lt; z"
  {
    EscapeContentOfClean("x & " + "y < z");
    EscapeAmp();
    EscapeLess();
    MapCharsAppend("x & ", "y < z", AndroidEntity);
  }
}
