/** Characters, entities and white space of the XML printer and parser. */
module XmlText {
  import opened Common
  import opened CStrings

  predicate IsNameChar(c: char) {
    || 'a' <= c <= 'z' || 'A' <= c <= 'Z' || '0' <= c <= '9'
    || c == '_' || c == '-' || c == ':' || c == '.'
  }

  lemma {:induction false} IndexOfConcat(s: string, c: char, rest: string)
    requires c !in s && rest != "" && rest[0] == c
    ensures IndexOf(s + rest, c) == |s|
  {
    if s == "" {
      assert s + rest == rest;
    } else {
      assert s == [s[0]] + s[1..];
      assert (s + rest)[1..] == s[1..] + rest;
      IndexOfConcat(s[1..], c, rest);
    }
  }

  // Escaping

  /** Attribute values are printed between double quotes, so quotes are escaped there too. */
  datatype Place = InText | InAttribute

  function EscapedChar(place: Place, c: char): (e: string)
    ensures |e| > 0
  {
    match c
    case '&' => "&amp;"
    case '<' => "&lt;"
    case '>' => "&gt;"
    case '"' => if place.InAttribute? then "&quot;" else [c]
    case '\'' => if place.InAttribute? then "&apos;" else [c]
    case _ => [c]
  }

  function Escaped(place: Place, s: string): string {
    if s == "" then "" else Escaped(place, s[..|s| - 1]) + EscapedChar(place, s[|s| - 1])
  }

  method EscapeText(s: string) returns (out: string)
    ensures out == Escaped(InText, s)
  {
    out := "";
    for i := 0 to |s|
      invariant out == Escaped(InText, s[..i])
    {
      assert s[..i + 1][..i] == s[..i];
      match s[i] {
        case '&' => out := out + "&amp;";
        case '<' => out := out + "&lt;";
        case '>' => out := out + "&gt;";
        case c => out := out + [c];
      }
    }
    assert s[..|s|] == s;
  }

  method EscapeAttr(s: string) returns (out: string)
    ensures out == Escaped(InAttribute, s)
  {
    out := "";
    for i := 0 to |s|
      invariant out == Escaped(InAttribute, s[..i])
    {
      assert s[..i + 1][..i] == s[..i];
      match s[i] {
        case '&' => out := out + "&amp;";
        case '<' => out := out + "&lt;";
        case '>' => out := out + "&gt;";
        case '"' => out := out + "&quot;";
        case '\'' => out := out + "&apos;";
        case c => out := out + [c];
      }
    }
    assert s[..|s|] == s;
  }

  lemma {:induction false} EscapedConcat(place: Place, a: string, b: string)
    ensures Escaped(place, a + b) == Escaped(place, a) + Escaped(place, b)
  {
    if b == "" {
      assert a + b == a;
    } else {
      var n := |b| - 1;
      EscapedConcat(place, a, b[..n]);
      assert (a + b)[..|a + b| - 1] == a + b[..n];
      assert (a + b)[|a + b| - 1] == b[n];
      Regrouped(Escaped(place, a), Escaped(place, b[..n]), EscapedChar(place, b[n]));
    }
  }

  lemma EscapedOne(place: Place, c: char, s: string)
    ensures Escaped(place, [c] + s) == EscapedChar(place, c) + Escaped(place, s)
  {
    EscapedConcat(place, [c], s);
    assert [c][..0] == "";
    assert "" + EscapedChar(place, c) == EscapedChar(place, c);
  }

  lemma EscapedCharShape(place: Place, c: char)
    ensures '<' !in EscapedChar(place, c)
    ensures place.InAttribute? ==> '"' !in EscapedChar(place, c)
    ensures var e := EscapedChar(place, c);
            (IsSpace(e[0]) <==> IsSpace(c)) && (IsSpace(e[|e| - 1]) <==> IsSpace(c)) && (IsSpace(c) ==> e == [c])
  {}

  lemma {:induction false} EscapedHasNoMarkup(place: Place, s: string)
    ensures '<' !in Escaped(place, s)
    ensures place.InAttribute? ==> '"' !in Escaped(place, s)
    ensures Escaped(place, s) == "" <==> s == ""
  {
    if s != "" {
      EscapedHasNoMarkup(place, s[..|s| - 1]);
      EscapedCharShape(place, s[|s| - 1]);
    }
  }

  // Decoding

  /** The character that the front of a non-empty string stands for, and how long it is. */
  function FirstDecoded(s: string): (r: (char, nat))
    requires s != ""
    ensures 0 < r.1 <= |s|
  {
    if StartsWith(s, "&lt;") then ('<', 4)
    else if StartsWith(s, "&gt;") then ('>', 4)
    else if StartsWith(s, "&amp;") then ('&', 5)
    else if StartsWith(s, "&quot;") then ('"', 6)
    else if StartsWith(s, "&apos;") then ('\'', 6)
    else (s[0], 1)
  }

  function Decoded(s: string): string {
    if s == "" then "" else var (c, n) := FirstDecoded(s); [c] + Decoded(s[n..])
  }

  method DecodeEntities(s: string) returns (result: string)
    ensures result == Decoded(s)
  {
    result := "";
    var i := 0;
    while i < |s|
      invariant 0 <= i <= |s|
      invariant Decoded(s) == result + Decoded(s[i..])
    {
      var c, n := s[i], 1;
      if s[i] == '&' {
        if StartsWith(s[i..], "&lt;") {
          c, n := '<', 4;
        } else if StartsWith(s[i..], "&gt;") {
          c, n := '>', 4;
        } else if StartsWith(s[i..], "&amp;") {
          c, n := '&', 5;
        } else if StartsWith(s[i..], "&quot;") {
          c, n := '"', 6;
        } else if StartsWith(s[i..], "&apos;") {
          c, n := '\'', 6;
        }
      } else {
        OnlyAmpersandsStartEntities(s[i..]);
      }
      assert (c, n) == FirstDecoded(s[i..]);
      assert s[i..][n..] == s[i + n..];
      Regrouped(result, [c], Decoded(s[i + n..]));
      result := result + [c];
      i := i + n;
    }
  }

  lemma OnlyAmpersandsStartEntities(s: string)
    requires s != "" && s[0] != '&'
    ensures FirstDecoded(s) == (s[0], 1)
  {
    NotPrefix(s, "&lt;", 0);
    NotPrefix(s, "&gt;", 0);
    NotPrefix(s, "&amp;", 0);
    NotPrefix(s, "&quot;", 0);
    NotPrefix(s, "&apos;", 0);
  }

  lemma NotPrefix(s: string, p: string, i: nat)
    requires i < |p| && i < |s| && s[i] != p[i]
    ensures !StartsWith(s, p)
  {
    if |p| <= |s| { assert s[..|p|][i] == s[i]; }
  }

  lemma DecodeEscapedChar(place: Place, c: char, rest: string)
    ensures Decoded(EscapedChar(place, c) + rest) == [c] + Decoded(rest)
  {
    var e := EscapedChar(place, c);
    var s := e + rest;
    assert s[|e|..] == rest;
    if |e| > 1 {
      assert s[..|e|] == e && StartsWith(s, e);
      assert s[1] == e[1] && s[2] == e[2];
      if c != '<' { NotPrefix(s, "&lt;", 1); }
      if c != '<' && c != '>' { NotPrefix(s, "&gt;", 1); }
      if c == '"' || c == '\'' { NotPrefix(s, "&amp;", if c == '"' then 1 else 2); }
      if c == '\'' { NotPrefix(s, "&quot;", 1); }
    } else if c != '&' {
      OnlyAmpersandsStartEntities(s);
    }
  }

  /** Decoding undoes escaping, for every string and in both places. */
  lemma {:induction false} DecodeEscaped(place: Place, s: string, rest: string)
    ensures Decoded(Escaped(place, s) + rest) == s + Decoded(rest)
  {
    hide Decoded, EscapedChar;
    if s != "" {
      var n := |s| - 1;
      var last := EscapedChar(place, s[n]);
      Regrouped(Escaped(place, s[..n]), last, rest);
      DecodeEscaped(place, s[..n], last + rest);
      DecodeEscapedChar(place, s[n], rest);
      Regrouped(s[..n], [s[n]], Decoded(rest));
      assert s == s[..n] + [s[n]];
    } else {
      assert "" + rest == rest;
      assert "" + Decoded(rest) == Decoded(rest);
    }
  }

  // White space

  lemma {:induction false} SkipSpaceShape(s: string)
    ensures var t := SkipSpace(s);
            t == s[|s| - |t|..] && (t != "" ==> !IsSpace(t[0]))
  {
    if s != "" && IsSpace(s[0]) { SkipSpaceShape(s[1..]); }
  }

  lemma {:induction false} DropTrailingSpaceShape(s: string)
    ensures var t := DropTrailingSpace(s);
            t == s[..|t|] && (t != "" ==> !IsSpace(t[|t| - 1]))
  {
    if s != "" && IsSpace(s[|s| - 1]) { DropTrailingSpaceShape(s[..|s| - 1]); }
  }

  function Trimmed(s: string): string {
    DropTrailingSpace(SkipSpace(s))
  }

  predicate AllSpace(s: string) {
    forall i :: 0 <= i < |s| ==> IsSpace(s[i])
  }

  /** No white space at either end. */
  predicate TrimStable(s: string) {
    s == "" || (!IsSpace(s[0]) && !IsSpace(s[|s| - 1]))
  }

  lemma TrimmedIsStable(s: string)
    ensures TrimStable(Trimmed(s))
    ensures TrimStable(s) <==> Trimmed(s) == s
  {
    SkipSpaceShape(s);
    DropTrailingSpaceShape(SkipSpace(s));
    if Trimmed(s) == s { assert SkipSpace(s) == s; }
  }

  /** The first loop of `trim`. */
  method FirstNonSpace(s: string) returns (begin: nat)
    ensures begin <= |s| && SkipSpace(s) == s[begin..]
  {
    begin := 0;
    while begin < |s| && IsSpace(s[begin])
      invariant begin <= |s|
      invariant SkipSpace(s) == SkipSpace(s[begin..])
    {
      SkipSpaceStep(s, begin);
      begin := begin + 1;
    }
    if begin < |s| { SkipSpaceStep(s, begin); }
  }

  method TrimSpaces(s: string) returns (t: string)
    ensures t == Trimmed(s)
  {
    hide SkipSpace;
    var begin := FirstNonSpace(s);
    if begin == |s| {
      return "";
    }
    var body := s[begin..];
    assert body[..|body|] == body;
    var end := CutTrailingSpace(body, |body|);
    return body[..end];
  }

  lemma {:induction false} SkipSpaceOverSpace(w: string, s: string)
    requires AllSpace(w)
    ensures SkipSpace(w + s) == SkipSpace(s)
  {
    if w == "" {
      assert w + s == s;
    } else {
      SkipSpaceOverSpace(w[1..], s);
      assert (w + s)[1..] == w[1..] + s;
    }
  }

  lemma {:induction false} DropTrailingSpaceOverSpace(s: string, w: string)
    requires AllSpace(w)
    ensures DropTrailingSpace(s + w) == DropTrailingSpace(s)
  {
    if w == "" {
      assert s + w == s;
    } else {
      DropTrailingSpaceOverSpace(s, w[..|w| - 1]);
      assert (s + w)[..|s + w| - 1] == s + w[..|w| - 1];
    }
  }

  lemma TrimmedOfSpace(w: string)
    requires AllSpace(w)
    ensures Trimmed(w) == ""
  {
    SkipSpaceOverSpace(w, "");
    assert w + "" == w;
  }

  lemma {:induction false} TrimmedIgnoresTrailingSpace(s: string, w: string)
    requires AllSpace(w)
    ensures Trimmed(s + w) == Trimmed(s)
  {
    if s == "" {
      assert s + w == w;
      TrimmedOfSpace(w);
    } else if IsSpace(s[0]) {
      TrimmedIgnoresTrailingSpace(s[1..], w);
      assert (s + w)[1..] == s[1..] + w;
    } else {
      DropTrailingSpaceOverSpace(s, w);
    }
  }

  /** Escaping leaves white space alone, so trimming commutes with it. */
  lemma TrimmedEscaped(s: string)
    ensures Trimmed(Escaped(InText, s)) == Escaped(InText, Trimmed(s))
  {
    SkipSpaceEscaped(s);
    DropTrailingSpaceEscaped(SkipSpace(s));
  }

  lemma {:induction false} SkipSpaceEscaped(s: string)
    ensures SkipSpace(Escaped(InText, s)) == Escaped(InText, SkipSpace(s))
  {
    if s != "" {
      var c, rest := s[0], s[1..];
      assert s == [c] + rest;
      EscapedOne(InText, c, rest);
      EscapedCharShape(InText, c);
      var t := EscapedChar(InText, c) + Escaped(InText, rest);
      if IsSpace(c) {
        assert t[1..] == Escaped(InText, rest);
        SkipSpaceEscaped(rest);
      } else {
        assert !IsSpace(t[0]);
      }
    }
  }

  lemma {:induction false} DropTrailingSpaceEscaped(s: string)
    ensures DropTrailingSpace(Escaped(InText, s)) == Escaped(InText, DropTrailingSpace(s))
  {
    if s != "" {
      var n := |s| - 1;
      var t := Escaped(InText, s);
      EscapedCharShape(InText, s[n]);
      assert t[|t| - 1] == EscapedChar(InText, s[n])[|EscapedChar(InText, s[n])| - 1];
      if IsSpace(s[n]) {
        assert t[..|t| - 1] == Escaped(InText, s[..n]);
        DropTrailingSpaceEscaped(s[..n]);
      }
    }
  }

  /** Escaped text comes back trimmed, whatever white space the printer put behind it. */
  lemma EscapedTextComesBackTrimmed(s: string, w: string)
    requires AllSpace(w)
    ensures Decoded(Trimmed(Escaped(InText, s) + w)) == Trimmed(s)
    ensures Trimmed(Escaped(InText, s) + w) == "" <==> Trimmed(s) == ""
  {
    var t := Trimmed(s);
    TrimmedIgnoresTrailingSpace(Escaped(InText, s), w);
    TrimmedEscaped(s);
    DecodeEscaped(InText, t, "");
    assert Escaped(InText, t) + "" == Escaped(InText, t);
    assert t + Decoded("") == t;
    EscapedHasNoMarkup(InText, t);
  }
}
