/** `ClientText` (`frontend/app.js`): the single-page client's text helpers, HTML escaping
    and turning pasted image data into a data URL. */
module ClientText {
  import opened Results
  import Text

  /** `String(s ?? "")` and `String(s || "")` for a value that is a string, `null` or
      `undefined` (an empty string is falsy, so both give ""). */
  function OrEmpty(s: Option<string>): string {
    if s.Some? then s.value else ""
  }

  // ---- .length ----

  /** The UTF-16 code units of one character: two for a character outside the Basic
      Multilingual Plane (a surrogate pair), otherwise one. */
  function CodeUnits(c: char): nat {
    if c as int < 0x1_0000 then 1 else 2
  }

  /** JavaScript's `s.length`, which counts UTF-16 code units, not characters. */
  function JsLength(s: string): nat {
    if s == [] then 0 else CodeUnits(s[0]) + JsLength(s[1..])
  }

  /** Every character of `s` lies in the Basic Multilingual Plane. */
  predicate InBmp(s: string) {
    forall i | 0 <= i < |s| :: s[i] as int < 0x1_0000
  }

  /** `.length` is never below the number of characters, and equals it exactly when every
      character lies in the Basic Multilingual Plane. */
  lemma {:induction false} JsLengthCounts(s: string)
    ensures JsLength(s) >= |s|
    ensures JsLength(s) == |s| <==> InBmp(s)
  {
    if s != [] {
      JsLengthCounts(s[1..]);
      assert forall i | 1 <= i < |s| :: s[i] == s[1..][i - 1];
    }
  }

  /** A character in front adds its own code units. */
  lemma JsLengthCons(c: char, t: string)
    ensures JsLength([c] + t) == CodeUnits(c) + JsLength(t)
  {
    assert ([c] + t)[1..] == t;
  }

  // ---- escapeHtml ----

  /** `s.replaceAll(c, rep)` for a one-character pattern: every occurrence of `c`, left to
      right, is replaced by `rep`. */
  function ReplaceAll(s: string, c: char, rep: string): (r: string)
    ensures c !in s ==> r == s
  {
    if s == [] then []
    else (if s[0] == c then rep else [s[0]]) + ReplaceAll(s[1..], c, rep)
  }

  lemma {:induction false} ReplaceAllAppend(a: string, b: string, c: char, rep: string)
    ensures ReplaceAll(a + b, c, rep) == ReplaceAll(a, c, rep) + ReplaceAll(b, c, rep)
  {
    if a == [] {
      assert a + b == b;
    } else {
      assert (a + b)[0] == a[0] && (a + b)[1..] == a[1..] + b;
      ReplaceAllAppend(a[1..], b, c, rep);
    }
  }

  /** The chain of `replaceAll` calls `escapeHtml` applies, in its order: `&` first, so
      the ampersands the later passes introduce are not escaped again. */
  function EscapeText(s: string): string {
    ReplaceAll(ReplaceAll(ReplaceAll(s, '&', "&amp;"), '<', "&lt;"), '>', "&gt;")
  }

  /** `escapeHtml`. */
  function EscapeHtml(s: Option<string>): string {
    EscapeText(OrEmpty(s))
  }

  /** The escape of one character on its own. */
  function EscapeChar(c: char): string {
    if c == '&' then "&amp;" else if c == '<' then "&lt;" else if c == '>' then "&gt;" else [c]
  }

  /** Reference definition: every character escaped on its own. */
  function EscapeEach(s: string): string {
    if s == [] then [] else EscapeChar(s[0]) + EscapeEach(s[1..])
  }

  lemma ReplaceAllOne(c: char, x: char, rep: string)
    ensures ReplaceAll([c], x, rep) == if c == x then rep else [c]
  {
    assert [c][1..] == [];
  }

  /** The later passes leave the entities of the earlier ones alone. */
  lemma EntitiesKept()
    ensures ReplaceAll("&amp;", '<', "&lt;") == "&amp;"
    ensures ReplaceAll("&amp;", '>', "&gt;") == "&amp;"
    ensures ReplaceAll("&lt;", '>', "&gt;") == "&lt;"
  {
    assert '<' !in "&amp;" && '>' !in "&amp;" && '>' !in "&lt;";
  }

  /** The three passes escape a leading character exactly as `EscapeChar` does. */
  lemma EscapeTextCons(c: char, s: string)
    ensures EscapeText([c] + s) == EscapeChar(c) + EscapeText(s)
  {
    var p1 := ReplaceAll(s, '&', "&amp;");
    var p2 := ReplaceAll(p1, '<', "&lt;");
    var e1 := if c == '&' then "&amp;" else [c];
    var e2 := if c == '&' then "&amp;" else if c == '<' then "&lt;" else [c];
    EntitiesKept();
    ReplaceAllOne(c, '&', "&amp;");
    ReplaceAllOne(c, '<', "&lt;");
    ReplaceAllOne(c, '>', "&gt;");
    ReplaceAllAppend([c], s, '&', "&amp;");
    ReplaceAllAppend(e1, p1, '<', "&lt;");
    ReplaceAllAppend(e2, p2, '>', "&gt;");
  }

  /** `escapeHtml` agrees with escaping each character on its own. */
  lemma {:induction false} EscapeTextIsEach(s: string)
    ensures EscapeText(s) == EscapeEach(s)
  {
    if s == [] {
    } else {
      assert s == [s[0]] + s[1..];
      EscapeTextCons(s[0], s[1..]);
      EscapeTextIsEach(s[1..]);
    }
  }

  /** A named character reference `escapeHtml` produces starts at index `i` of `r`. */
  predicate EntityAt(r: string, i: nat)
    requires i < |r|
  {
    Text.StartsWith(r[i..], "&amp;") || Text.StartsWith(r[i..], "&lt;") || Text.StartsWith(r[i..], "&gt;")
  }

  /** No angle bracket is left, and every ampersand begins one of the three entities. */
  predicate HtmlSafe(r: string) {
    && (forall i | 0 <= i < |r| :: r[i] != '<' && r[i] != '>')
    && (forall i | 0 <= i < |r| && r[i] == '&' :: EntityAt(r, i))
  }

  lemma {:induction false} EscapeEachSafe(s: string)
    ensures HtmlSafe(EscapeEach(s))
  {
    if s != [] {
      EscapeEachSafe(s[1..]);
      HtmlSafeCons(s[0], EscapeEach(s[1..]));
    }
  }

  /** An escaped character in front of safe text keeps it safe. */
  lemma HtmlSafeCons(c: char, rest: string)
    requires HtmlSafe(rest)
    ensures HtmlSafe(EscapeChar(c) + rest)
  {
    var e := EscapeChar(c);
    var r := e + rest;
    assert forall i | |e| <= i < |r| :: r[i] == rest[i - |e|];
    assert forall i | 0 <= i < |e| :: e[i] != '<' && e[i] != '>';
    assert forall i | 0 <= i < |e| && e[i] == '&' :: i == 0 && e[0] == '&';
    forall i | 0 <= i < |r| && r[i] == '&' ensures EntityAt(r, i) {
      if i < |e| {
        assert r[..|e|] == e;
      } else {
        assert r[i..] == rest[i - |e|..];
        assert EntityAt(rest, i - |e|);
      }
    }
  }

  /** What `escapeHtml` promises: its output has no `<` or `>`, and every `&` in it begins
      `&amp;`, `&lt;` or `&gt;`. */
  lemma EscapeHtmlSafe(s: Option<string>)
    ensures HtmlSafe(EscapeHtml(s))
  {
    EscapeTextIsEach(OrEmpty(s));
    EscapeEachSafe(OrEmpty(s));
  }

  /** How a browser reads the three entities back. */
  function Unescape(r: string): string
    decreases |r|
  {
    if r == [] then []
    else if Text.StartsWith(r, "&amp;") then "&" + Unescape(r[5..])
    else if Text.StartsWith(r, "&lt;") then "<" + Unescape(r[4..])
    else if Text.StartsWith(r, "&gt;") then ">" + Unescape(r[4..])
    else [r[0]] + Unescape(r[1..])
  }

  lemma UnescapeCons(c: char, rest: string)
    ensures Unescape(EscapeChar(c) + rest) == [c] + Unescape(rest)
  {
    if c == '&' {
      UnescapeEntity("&amp;", rest, '&');
    } else if c == '<' {
      UnescapeEntity("&lt;", rest, '<');
    } else if c == '>' {
      UnescapeEntity("&gt;", rest, '>');
    } else {
      var r := [c] + rest;
      assert r[0] == c && r[1..] == rest;
      assert !Text.StartsWith(r, "&amp;") && !Text.StartsWith(r, "&lt;") && !Text.StartsWith(r, "&gt;");
    }
  }

  lemma UnescapeEntity(e: string, rest: string, c: char)
    requires (e, c) in {("&amp;", '&'), ("&lt;", '<'), ("&gt;", '>')}
    ensures Unescape(e + rest) == [c] + Unescape(rest)
  {
    var r := e + rest;
    assert r[..|e|] == e && r[|e|..] == rest;
    assert r[1] == e[1];
  }

  /** Escaping loses nothing: the text the browser shows is the text escaped. */
  lemma {:induction false} UnescapeEscapeHtml(s: string)
    ensures Unescape(EscapeHtml(Some(s))) == s
  {
    EscapeTextIsEach(s);
    UnescapeEach(s);
  }

  lemma {:induction false} UnescapeEach(s: string)
    ensures Unescape(EscapeEach(s)) == s
  {
    if s != [] {
      UnescapeCons(s[0], EscapeEach(s[1..]));
      UnescapeEach(s[1..]);
      assert s == [s[0]] + s[1..];
    }
  }

  // ---- detectDataUrl ----

  /** The media type `detectDataUrl` guesses from the first characters of base64 data. */
  function Mime(s: string): string {
    if Text.StartsWith(s, "/9j/") then "image/jpeg"
    else if Text.StartsWith(s, "iVBORw0KGgo") then "image/png"
    else if Text.StartsWith(s, "R0lGOD") then "image/gif"
    else if Text.StartsWith(s, "UklGR") then "image/webp"
    else "image/png"
  }

  /** The header `detectDataUrl` puts before base64 data. */
  function Header(s: string): (h: string)
    ensures |h| >= 5 && h[..5] == "data:"
  {
    var h := "data:" + Mime(s) + ";base64,";
    assert h[..5] == "data:";
    h
  }

  /** `detectDataUrl`: blank input gives "", a data URL is kept (trimmed), and anything
      else is taken as base64 data and gets a data-URL header. */
  function DetectDataUrl(data: Option<string>): string {
    DetectTrimmed(Text.Strip(Text.JavaScript, OrEmpty(data)))
  }

  /** The cases of `detectDataUrl` once its input is trimmed. */
  function DetectTrimmed(s: string): string {
    if s == [] then ""
    else if Text.StartsWith(s, "data:") then s
    else Header(s) + s
  }

  /** The three outcomes: empty exactly for blank input; otherwise a data URL that ends
      with the trimmed input, which is the whole result when it already was a data URL. */
  lemma DetectDataUrlCases(data: Option<string>)
    ensures var s := Text.Strip(Text.JavaScript, OrEmpty(data));
            var r := DetectDataUrl(data);
            && (r == [] <==> Text.AllSpace(Text.JavaScript, OrEmpty(data)))
            && (r != [] ==> Text.StartsWith(r, "data:") && |s| <= |r| && r[|r| - |s|..] == s)
            && (Text.StartsWith(s, "data:") ==> r == s)
            && (s != [] && !Text.StartsWith(s, "data:") ==>
                  r[..|r| - |s|] == Header(s))
  {
    var s := Text.Strip(Text.JavaScript, OrEmpty(data));
    var r := DetectDataUrl(data);
    if s != [] && !Text.StartsWith(s, "data:") {
      var h := Header(s);
      assert r == h + s;
      assert r[..5] == h[..5];
      assert r[|r| - |s|..] == s;
      assert r[..|r| - |s|] == h;
    }
  }

  /** Normalizing a normalized value changes nothing. */
  lemma DetectDataUrlIdempotent(data: Option<string>)
    ensures DetectDataUrl(Some(DetectDataUrl(data))) == DetectDataUrl(data)
  {
    var s := Text.Strip(Text.JavaScript, OrEmpty(data));
    if s != [] && !Text.StartsWith(s, "data:") {
      HeaderKept(s);
    } else if s != [] {
      DataUrlKept(s);
    }
  }

  /** Base64 data with its header is a trimmed data URL. */
  lemma HeaderKept(s: string)
    requires Text.Trimmed(Text.JavaScript, s) && s != []
    ensures DetectDataUrl(Some(Header(s) + s)) == Header(s) + s
  {
    var h := Header(s);
    var r := h + s;
    assert r[0] == h[0] == 'd' && r[|r| - 1] == s[|s| - 1];
    assert r[..5] == h[..5];
    DataUrlKept(r);
  }

  /** A trimmed data URL comes back unchanged. */
  lemma DataUrlKept(r: string)
    requires Text.Trimmed(Text.JavaScript, r) && Text.StartsWith(r, "data:")
    ensures DetectDataUrl(Some(r)) == r
  {
    Text.StripTrimmed(Text.JavaScript, r);
  }
}
