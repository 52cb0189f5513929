/** Text helpers of the INI store: trimming, inline comments, escapes and integers. */
module IniText {
  import opened Common
  import opened CStrings

  // Trimming

  predicate IsTrimmed(c: char) {
    c == ' ' || c == '\t' || c == '\r' || c == '\n'
  }

  function TrimLeft(s: string): string {
    if s != "" && IsTrimmed(s[0]) then TrimLeft(s[1..]) else s
  }

  function TrimRight(s: string): string {
    if s != "" && IsTrimmed(s[|s| - 1]) then TrimRight(s[..|s| - 1]) else s
  }

  function Trim(s: string): string {
    TrimRight(TrimLeft(s))
  }

  method TrimText(s: string) returns (t: string)
    ensures t == Trim(s)
  {
    var start := 0;
    assert s[0..] == s;
    while start < |s| && IsTrimmed(s[start])
      invariant 0 <= start <= |s|
      invariant TrimLeft(s) == TrimLeft(s[start..])
    {
      assert s[start..][1..] == s[start + 1..];
      start := start + 1;
    }
    var rest := s[start..];
    assert TrimLeft(s) == rest;
    if start == |s| { return ""; }
    var end := |s| - 1;
    assert s[start..end + 1] == rest;
    while end > start && IsTrimmed(s[end])
      invariant start <= end < |s|
      invariant TrimRight(rest) == TrimRight(s[start..end + 1])
    {
      LastDropped(s, start, end);
      end := end - 1;
    }
    assert s[start..end + 1][0] == s[start];
    return s[start..end + 1];
  }

  lemma LastDropped(s: string, i: nat, j: nat)
    requires i < j < |s|
    ensures s[i..j + 1][..|s[i..j + 1]| - 1] == s[i..j] && s[i..j + 1][|s[i..j + 1]| - 1] == s[j]
  {}

  /** Nothing to trim at either end. */
  predicate IsStable(s: string) {
    s == "" || (!IsTrimmed(s[0]) && !IsTrimmed(s[|s| - 1]))
  }

  lemma {:induction false} TrimLeftShape(s: string)
    ensures TrimLeft(s) == "" || !IsTrimmed(TrimLeft(s)[0])
    ensures |TrimLeft(s)| <= |s| && s[|s| - |TrimLeft(s)|..] == TrimLeft(s)
  {
    if s != "" && IsTrimmed(s[0]) {
      TrimLeftShape(s[1..]);
    }
  }

  lemma {:induction false} TrimRightShape(s: string)
    ensures TrimRight(s) == "" || !IsTrimmed(TrimRight(s)[|TrimRight(s)| - 1])
    ensures |TrimRight(s)| <= |s| && s[..|TrimRight(s)|] == TrimRight(s)
    ensures s != "" && !IsTrimmed(s[0]) ==> TrimRight(s) != ""
  {
    if s != "" && IsTrimmed(s[|s| - 1]) {
      TrimRightShape(s[..|s| - 1]);
    }
  }

  /** The trimmed text is a slice of the text with nothing left to trim. */
  lemma TrimShape(s: string)
    ensures IsStable(Trim(s))
    ensures exists i: nat, j: nat :: i <= j <= |s| && Trim(s) == s[i..j]
  {
    TrimLeftShape(s);
    var l := TrimLeft(s);
    TrimRightShape(l);
    var i: nat := |s| - |l|;
    var j := i + |TrimRight(l)|;
    assert s[i..][..|TrimRight(l)|] == s[i..j];
    if TrimRight(l) != "" { assert TrimRight(l)[0] == l[0]; }
  }

  /** Exactly the stable texts are left alone. */
  lemma TrimKeepsStable(s: string)
    ensures Trim(s) == s <==> IsStable(s)
  {
    TrimShape(s);
    if IsStable(s) {
      assert TrimLeft(s) == s;
      assert TrimRight(s) == s;
    }
  }

  // Inline comments

  predicate IsComment(c: char) {
    c == ';' || c == '#'
  }

  datatype Quotes = Quotes(single: bool, double: bool)

  const OUTSIDE := Quotes(false, false)

  /** How a character changes the state of the quote scanner. */
  function Next(q: Quotes, c: char): Quotes {
    if c == '\'' && !q.double then q.(single := !q.single)
    else if c == '"' && !q.single then q.(double := !q.double)
    else q
  }

  function After(q: Quotes, s: string): Quotes
    decreases |s|
  {
    if s == "" then q else After(Next(q, s[0]), s[1..])
  }

  /** The position of the first comment character outside quotes, or the length of `s`. */
  function CommentAt(q: Quotes, s: string): (i: nat)
    ensures i <= |s|
    decreases |s|
  {
    if s == "" || (Next(q, s[0]) == OUTSIDE && IsComment(s[0])) then 0
    else 1 + CommentAt(Next(q, s[0]), s[1..])
  }

  /** The text before the first comment character outside quotes, without the white space in front
      of it; a text with no such character is left alone. */
  function StripComment(s: string): string {
    var i := CommentAt(OUTSIDE, s);
    if i == |s| then s else DropTrailingSpace(s[..i])
  }

  lemma {:induction false} AfterAppended(q: Quotes, s: string, c: char)
    ensures After(q, s + [c]) == Next(After(q, s), c)
    decreases |s|
  {
    if s == "" {
      assert "" + [c] == [c];
      assert [c][1..] == "";
    } else {
      assert (s + [c])[1..] == s[1..] + [c];
      AfterAppended(Next(q, s[0]), s[1..], c);
    }
  }

  /** The scanner reaches position `i` without a comment exactly when `CommentAt` is at least `i`. */
  ghost predicate NoneBefore(s: string, i: nat)
    requires i <= |s|
  {
    i <= CommentAt(OUTSIDE, s)
  }

  lemma {:induction false} CommentAtStep(q: Quotes, s: string, i: nat)
    requires i < |s| && i <= CommentAt(q, s)
    ensures CommentAt(q, s) == i <==> Next(After(q, s[..i]), s[i]) == OUTSIDE && IsComment(s[i])
    decreases |s|
  {
    if i > 0 {
      assert s[..i][1..] == s[1..][..i - 1];
      CommentAtStep(Next(q, s[0]), s[1..], i - 1);
    }
  }

  /** `last` is the last non-space position of `s[..i]`, or -1. */
  ghost predicate IsLastNonSpace(s: string, i: nat, last: int)
    requires i <= |s|
  {
    -1 <= last < i && (last >= 0 ==> !IsSpace(s[last])) && forall k :: last < k < i ==> IsSpace(s[k])
  }

  lemma {:induction false} DropTrailingSpaceFrom(s: string, i: nat, last: int)
    requires i <= |s| && IsLastNonSpace(s, i, last)
    ensures DropTrailingSpace(s[..i]) == DropTrailingSpace(s[..last + 1])
    decreases i
  {
    if i > 0 && last < i - 1 {
      assert s[..i][..i - 1] == s[..i - 1];
      DropTrailingSpaceFrom(s, i - 1, last);
    }
  }

  method StripInlineComment(s: string) returns (t: string)
    ensures t == StripComment(s)
  {
    var inSingle, inDouble := false, false;
    var last := -1;
    for i := 0 to |s|
      invariant After(OUTSIDE, s[..i]) == Quotes(inSingle, inDouble)
      invariant NoneBefore(s, i)
      invariant -1 <= last < i
      invariant !inSingle && !inDouble ==> IsLastNonSpace(s, i, last)
    {
      var c := s[i];
      AfterAppended(OUTSIDE, s[..i], c);
      assert s[..i + 1] == s[..i] + [c];
      CommentAtStep(OUTSIDE, s, i);
      if c == '\'' && !inDouble {
        inSingle := !inSingle;
      } else if c == '"' && !inSingle {
        inDouble := !inDouble;
      }
      if !inSingle && !inDouble {
        if c == ';' || c == '#' {
          var cut := if last >= 0 then last + 1 else 0;
          DropTrailingSpaceFrom(s, i, last);
          cut := CutTrailingSpace(s, cut);
          return s[..cut];
        }
        if !IsSpace(c) { last := i; }
      }
    }
    return s;
  }

  // Escapes

  function EscapeOf(c: char): string {
    if c == '\t' then "\\t" else if c == '\n' then "\\n" else if c == '\r' then "\\r"
    else if c == '\\' then "\\\\" else if c == '\'' then "\\'" else [c]
  }

  function Encode(s: string): string {
    if s == "" then "" else EscapeOf(s[0]) + Encode(s[1..])
  }

  /** The text an escape sequence stands for; an unknown one stands for itself. */
  function Unescaped(c: char): string {
    if c == 't' then "\t" else if c == 'n' then "\n" else if c == 'r' then "\r"
    else if c == '\\' || c == '\'' || c == '"' then [c] else ['\\', c]
  }

  function Decode(s: string): string {
    if s == "" then ""
    else if s[0] == '\\' && |s| > 1 then Unescaped(s[1]) + Decode(s[2..])
    else [s[0]] + Decode(s[1..])
  }

  /** The escapes of the double-quoted form: only the quote itself. */
  function EncodeLiteral(s: string): string {
    if s == "" then "" else (if s[0] == '"' then "\\\"" else [s[0]]) + EncodeLiteral(s[1..])
  }

  function DecodeLiteral(s: string): string {
    if s == "" then ""
    else if s[0] == '\\' && |s| > 1 && s[1] == '"' then "\"" + DecodeLiteral(s[2..])
    else [s[0]] + DecodeLiteral(s[1..])
  }

  method EncodeEscapes(s: string) returns (t: string)
    ensures t == Encode(s)
  {
    t := "";
    assert s[0..] == s;
    for i := 0 to |s|
      invariant t + Encode(s[i..]) == Encode(s)
    {
      assert s[i..][1..] == s[i + 1..];
      Regrouped(t, EscapeOf(s[i]), Encode(s[i + 1..]));
      if s[i] == '\t' { t := t + "\\t"; }
      else if s[i] == '\n' { t := t + "\\n"; }
      else if s[i] == '\r' { t := t + "\\r"; }
      else if s[i] == '\\' { t := t + "\\\\"; }
      else if s[i] == '\'' { t := t + "\\'"; }
      else { t := t + [s[i]]; }
    }
    Regrouped(t, "", "");
  }

  method DecodeEscapes(s: string) returns (t: string)
    ensures t == Decode(s)
  {
    t := "";
    var i := 0;
    assert s[0..] == s;
    while i < |s|
      invariant 0 <= i <= |s|
      invariant t + Decode(s[i..]) == Decode(s)
    {
      var c := s[i];
      assert s[i..][1..] == s[i + 1..];
      if c == '\\' && i + 1 < |s| {
        i := i + 1;
        var nx := s[i];
        assert s[i - 1..][2..] == s[i + 1..];
        Regrouped(t, Unescaped(nx), Decode(s[i + 1..]));
        if nx == 't' { t := t + "\t"; }
        else if nx == 'n' { t := t + "\n"; }
        else if nx == 'r' { t := t + "\r"; }
        else if nx == '\\' { t := t + "\\"; }
        else if nx == '\'' { t := t + "'"; }
        else if nx == '"' { t := t + "\""; }
        else { t := t + ['\\', nx]; }
      } else {
        Regrouped(t, [c], Decode(s[i + 1..]));
        t := t + [c];
      }
      i := i + 1;
    }
    Regrouped(t, "", "");
  }

  method UnescapeLiteral(s: string) returns (t: string)
    ensures t == DecodeLiteral(s)
  {
    t := "";
    var i := 0;
    assert s[0..] == s;
    while i < |s|
      invariant 0 <= i <= |s|
      invariant t + DecodeLiteral(s[i..]) == DecodeLiteral(s)
    {
      assert s[i..][1..] == s[i + 1..];
      if s[i] == '\\' && i + 1 < |s| && s[i + 1] == '"' {
        assert s[i..][2..] == s[i + 2..];
        Regrouped(t, "\"", DecodeLiteral(s[i + 2..]));
        t := t + "\"";
        i := i + 1;
      } else {
        Regrouped(t, [s[i]], DecodeLiteral(s[i + 1..]));
        t := t + [s[i]];
      }
      i := i + 1;
    }
    Regrouped(t, "", "");
  }

  method EscapeLiteral(s: string) returns (t: string)
    ensures t == EncodeLiteral(s)
  {
    t := "";
    assert s[0..] == s;
    for i := 0 to |s|
      invariant t + EncodeLiteral(s[i..]) == EncodeLiteral(s)
    {
      assert s[i..][1..] == s[i + 1..];
      Regrouped(t, if s[i] == '"' then "\\\"" else [s[i]], EncodeLiteral(s[i + 1..]));
      if s[i] == '"' { t := t + "\\\""; } else { t := t + [s[i]]; }
    }
    Regrouped(t, "", "");
  }

  lemma DecodeEscape(c: char, rest: string)
    ensures Decode(EscapeOf(c) + rest) == [c] + Decode(rest)
  {
    var e := EscapeOf(c);
    assert (e + rest)[|e|..] == rest;
    assert (e + rest)[0] == e[0];
    if |e| == 2 { assert (e + rest)[1] == e[1]; }
  }

  /** Decoding undoes encoding on every string. */
  lemma {:induction false} DecodeEncoded(s: string)
    ensures Decode(Encode(s)) == s
  {
    hide EscapeOf, Decode;
    EmptyTexts();
    if s != "" {
      DecodeEncoded(s[1..]);
      DecodeEscape(s[0], Encode(s[1..]));
      assert s == [s[0]] + s[1..];
    }
  }

  lemma DecodeLiteralEscape(c: char, rest: string)
    requires rest == "" || rest[0] != '"'
    ensures DecodeLiteral((if c == '"' then "\\\"" else [c]) + rest) == [c] + DecodeLiteral(rest)
  {
    var e := if c == '"' then "\\\"" else [c];
    assert (e + rest)[|e|..] == rest;
    assert (e + rest)[0] == e[0];
    if |e| == 2 { assert (e + rest)[1] == e[1]; } else if rest != "" { assert (e + rest)[1] == rest[0]; }
  }

  /** The double-quoted form is undone on every string, backslashes before quotes included. */
  lemma {:induction false} DecodeEncodedLiteral(s: string)
    ensures DecodeLiteral(EncodeLiteral(s)) == s
  {
    hide DecodeLiteral;
    EmptyTexts();
    if s != "" {
      DecodeEncodedLiteral(s[1..]);
      EncodedLiteralStart(s[1..]);
      DecodeLiteralEscape(s[0], EncodeLiteral(s[1..]));
      assert s == [s[0]] + s[1..];
    }
  }

  lemma EncodedLiteralStart(s: string)
    ensures EncodeLiteral(s) == "" || EncodeLiteral(s)[0] != '"'
  {}

  lemma EmptyTexts()
    ensures Decode("") == "" && DecodeLiteral("") == ""
  {}
}
