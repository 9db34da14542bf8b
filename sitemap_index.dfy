/**
 * The sitemap index route: XML escaping of character data (section 2.4 of XML 1.0
 * reserves `<` and `&` in character data and `>` after `]]`), the base-URL choice,
 * and the body of a sitemap index file in the sitemaps.org Sitemap protocol 0.9 that
 * lists twenty child sitemaps.
 */
module SitemapIndex {
  import opened Wrappers
  import opened Text

  /** `s.replace(/c/g, rep)` for a single-character pattern. */
  function ReplaceAll(s: string, c: char, rep: string): string {
    if s == [] then [] else (if s[0] == c then rep else [s[0]]) + ReplaceAll(s[1..], c, rep)
  }

  /** `xmlEscape`: `&` first, then `<`, then `>`. */
  function XmlEscape(s: string): string {
    ReplaceAll(ReplaceAll(ReplaceAll(s, '&', "&amp;"), '<', "&lt;"), '>', "&gt;")
  }

  /** The reference escaping: each character on its own, in one pass. */
  function EscapeChar(c: char): string {
    if c == '&' then "&amp;" else if c == '<' then "&lt;" else if c == '>' then "&gt;" else [c]
  }

  function Escaped(s: string): string {
    if s == [] then [] else EscapeChar(s[0]) + Escaped(s[1..])
  }

  lemma {:induction false} ReplaceAllAppend(a: string, b: string, c: char, rep: string)
    ensures ReplaceAll(a + b, c, rep) == ReplaceAll(a, c, rep) + ReplaceAll(b, c, rep)
  {
    if a != [] {
      assert (a + b)[0] == a[0];
      assert (a + b)[1..] == a[1..] + b;
      ReplaceAllAppend(a[1..], b, c, rep);
      assert ReplaceAll(a + b, c, rep) == (if a[0] == c then rep else [a[0]]) + ReplaceAll(a[1..] + b, c, rep);
    } else {
      assert a + b == b;
    }
  }

  lemma {:induction false} ReplaceAllAbsent(s: string, c: char, rep: string)
    requires c !in s
    ensures ReplaceAll(s, c, rep) == s
  {
    if s != [] {
      ReplaceAllAbsent(s[1..], c, rep);
    }
  }

  /** Each of the three replacements distributes over concatenation, so escaping does too. */
  lemma XmlEscapeAppend(a: string, b: string)
    ensures XmlEscape(a + b) == XmlEscape(a) + XmlEscape(b)
  {
    var a1, b1 := ReplaceAll(a, '&', "&amp;"), ReplaceAll(b, '&', "&amp;");
    var a2, b2 := ReplaceAll(a1, '<', "&lt;"), ReplaceAll(b1, '<', "&lt;");
    ReplaceAllAppend(a, b, '&', "&amp;");
    ReplaceAllAppend(a1, b1, '<', "&lt;");
    ReplaceAllAppend(a2, b2, '>', "&gt;");
  }

  /** On one character the chained replacements give that character's entity, escaped once. */
  lemma XmlEscapeChar(c: char)
    ensures XmlEscape([c]) == EscapeChar(c)
  {
    ReplaceAllOne(c, '&', "&amp;");
    EntitiesHaveNoMarkup();
    if c == '&' {
      ReplaceAllAbsent("&amp;", '<', "&lt;");
      ReplaceAllAbsent("&amp;", '>', "&gt;");
    } else {
      ReplaceAllOne(c, '<', "&lt;");
      if c == '<' {
        ReplaceAllAbsent("&lt;", '>', "&gt;");
      } else {
        ReplaceAllOne(c, '>', "&gt;");
      }
    }
  }

  lemma EntitiesHaveNoMarkup()
    ensures '<' !in "&amp;" && '>' !in "&amp;" && '>' !in "&lt;"
  {
    assert "&amp;" == ['&', 'a', 'm', 'p', ';'];
    assert "&lt;" == ['&', 'l', 't', ';'];
  }

  lemma ReplaceAllOne(x: char, c: char, rep: string)
    ensures ReplaceAll([x], c, rep) == if x == c then rep else [x]
  {
    assert [x][1..] == [];
  }

  /**
   * Replacing `&` first makes the chained replacements agree with escaping every
   * character once: the `&` of an entity just inserted is never escaped again.
   */
  lemma {:induction false} XmlEscapeIsSinglePass(s: string)
    ensures XmlEscape(s) == Escaped(s)
  {
    if s != [] {
      assert s == [s[0]] + s[1..];
      XmlEscapeAppend([s[0]], s[1..]);
      XmlEscapeChar(s[0]);
      XmlEscapeIsSinglePass(s[1..]);
    }
  }

  /** `xmlEscape("<")` is `&lt;`, not the double-escaped `&amp;lt;`. */
  lemma LessThanEscapesOnce()
    ensures XmlEscape("<") == "&lt;"
  {
    XmlEscapeIsSinglePass("<");
  }

  /** The entity an escaped output has at `i`, if any. */
  predicate EntityAt(r: string, i: int) {
    OccursAt(r, "&amp;", i) || OccursAt(r, "&lt;", i) || OccursAt(r, "&gt;", i)
  }

  lemma OccursAtFront(p: string, rest: string)
    ensures OccursAt(p + rest, p, 0)
  {
    assert (p + rest)[..|p|] == p;
  }

  lemma OccursAtAfter(p: string, rest: string, w: string, j: int)
    requires OccursAt(rest, w, j)
    ensures OccursAt(p + rest, w, |p| + j)
  {
    assert (p + rest)[|p| + j..|p| + j + |w|] == rest[j..j + |w|];
  }

  /** The escaped text contains no `<` and no `>`. */
  lemma {:induction false} EscapedHasNoMarkup(s: string)
    ensures forall i :: 0 <= i < |Escaped(s)| ==> Escaped(s)[i] != '<' && Escaped(s)[i] != '>'
  {
    if s != [] {
      EscapedHasNoMarkup(s[1..]);
      assert Escaped(s) == EscapeChar(s[0]) + Escaped(s[1..]);
    }
  }

  /** Every `&` of the escaped text starts one of the entities `&amp;`, `&lt;`, `&gt;`. */
  lemma {:induction false} EscapedAmpersandsAreEntities(s: string)
    ensures forall i :: 0 <= i < |Escaped(s)| && Escaped(s)[i] == '&' ==> EntityAt(Escaped(s), i)
  {
    if s != [] {
      EscapedAmpersandsAreEntities(s[1..]);
      var piece, rest := EscapeChar(s[0]), Escaped(s[1..]);
      var r := Escaped(s);
      assert r == piece + rest;
      forall i | 0 <= i < |r| && r[i] == '&'
        ensures EntityAt(r, i)
      {
        if i < |piece| {
          OccursAtFront(piece, rest);
        } else {
          var j := i - |piece|;
          assert rest[j] == '&';
          if OccursAt(rest, "&amp;", j) {
            OccursAtAfter(piece, rest, "&amp;", j);
          } else if OccursAt(rest, "&lt;", j) {
            OccursAtAfter(piece, rest, "&lt;", j);
          } else {
            OccursAtAfter(piece, rest, "&gt;", j);
          }
        }
      }
    }
  }

  /** `xmlEscape` produces character data without markup, and escapes nothing twice. */
  lemma XmlEscapeIsCharacterData(s: string)
    ensures forall i :: 0 <= i < |XmlEscape(s)| ==> XmlEscape(s)[i] != '<' && XmlEscape(s)[i] != '>'
    ensures forall i :: 0 <= i < |XmlEscape(s)| && XmlEscape(s)[i] == '&' ==> EntityAt(XmlEscape(s), i)
  {
    XmlEscapeIsSinglePass(s);
    EscapedHasNoMarkup(s);
    EscapedAmpersandsAreEntities(s);
  }

  /** Strings without `&`, `<` and `>` (quotes included) come back unchanged. */
  lemma {:induction false} XmlEscapeIdentity(s: string)
    requires '&' !in s && '<' !in s && '>' !in s
    ensures XmlEscape(s) == s
  {
    ReplaceAllAbsent(s, '&', "&amp;");
    ReplaceAllAbsent(s, '<', "&lt;");
    ReplaceAllAbsent(s, '>', "&gt;");
  }

  function Count(s: string, c: char): nat {
    if s == [] then 0 else (if s[0] == c then 1 else 0) + Count(s[1..], c)
  }

  /** Each `&` grows by four characters, each `<` and `>` by three. */
  lemma {:induction false} XmlEscapeLength(s: string)
    ensures |XmlEscape(s)| == |s| + 4 * Count(s, '&') + 3 * Count(s, '<') + 3 * Count(s, '>')
  {
    XmlEscapeIsSinglePass(s);
    EscapedLength(s);
  }

  lemma {:induction false} EscapedLength(s: string)
    ensures |Escaped(s)| == |s| + 4 * Count(s, '&') + 3 * Count(s, '<') + 3 * Count(s, '>')
  {
    if s != [] {
      EscapedLength(s[1..]);
    }
  }

  /** The inverse of escaping: decodes the three entities, keeps every other character. */
  function Unescape(r: string): string
    decreases |r|
  {
    if r == [] then []
    else if OccursAt(r, "&amp;", 0) then ['&'] + Unescape(r[5..])
    else if OccursAt(r, "&lt;", 0) then ['<'] + Unescape(r[4..])
    else if OccursAt(r, "&gt;", 0) then ['>'] + Unescape(r[4..])
    else [r[0]] + Unescape(r[1..])
  }

  /** Escaping loses nothing: decoding the escaped text gives the original back. */
  lemma {:induction false} XmlEscapeRoundTrip(s: string)
    ensures Unescape(XmlEscape(s)) == s
  {
    XmlEscapeIsSinglePass(s);
    UnescapeEscaped(s);
  }

  lemma {:induction false} UnescapeEscaped(s: string)
    ensures Unescape(Escaped(s)) == s
  {
    if s != [] {
      UnescapeEscaped(s[1..]);
      UnescapeFront(s[0], Escaped(s[1..]));
    }
  }

  /** Decoding reads one escaped character off the front and goes on after it. */
  lemma UnescapeFront(c: char, rest: string)
    ensures Unescape(EscapeChar(c) + rest) == [c] + Unescape(rest)
  {
    var piece := EscapeChar(c);
    var r := piece + rest;
    assert r[|piece|..] == rest;
    if c == '&' {
      assert r[..5] == piece;
      assert OccursAt(r, "&amp;", 0);
      assert Unescape(r) == ['&'] + Unescape(r[5..]);
    } else if c == '<' {
      assert r[..4] == piece;
      assert !OccursAt(r, "&amp;", 0) by { assert r[1] == 'l'; }
      assert OccursAt(r, "&lt;", 0);
      assert Unescape(r) == ['<'] + Unescape(r[4..]);
    } else if c == '>' {
      assert r[..4] == piece;
      assert !OccursAt(r, "&amp;", 0) by { assert r[1] == 'g'; }
      assert !OccursAt(r, "&lt;", 0) by { assert r[1] == 'g'; }
      assert OccursAt(r, "&gt;", 0);
      assert Unescape(r) == ['>'] + Unescape(r[4..]);
    } else {
      assert r[0] == c;
      assert !OccursAt(r, "&amp;", 0) && !OccursAt(r, "&lt;", 0) && !OccursAt(r, "&gt;", 0) by {
        CharOfOccurrence(r, "&amp;", 0, 0);
        CharOfOccurrence(r, "&lt;", 0, 0);
        CharOfOccurrence(r, "&gt;", 0, 0);
      }
      assert Unescape(r) == [c] + Unescape(r[1..]);
    }
  }

  lemma {:induction false} EscapedKeepsCharOut(s: string, c: char)
    requires c !in s && c !in "&amp;&lt;&gt;"
    ensures c !in Escaped(s)
  {
    if s != [] {
      EscapedKeepsCharOut(s[1..], c);
      assert Escaped(s) == EscapeChar(s[0]) + Escaped(s[1..]);
    }
  }

  /** The request headers `getBaseUrl` reads; a missing header is `None` (`null`). */
  datatype Headers = Headers(forwardedHost: Option<string>, host: Option<string>, forwardedProto: Option<string>)

  /** `env.replace(/\/$/, "")`: removes one `/` at the very end, if there is one. */
  function StripTrailingSlash(s: string): (r: string)
    ensures |s| > 0 && s[|s| - 1] == '/' ==> r + "/" == s
    ensures !(|s| > 0 && s[|s| - 1] == '/') ==> r == s
  {
    if |s| > 0 && s[|s| - 1] == '/' then s[..|s| - 1] else s
  }

  /** `${x}` for a header value: a missing header prints as "null". */
  function NullableText(x: Option<string>): (t: string)
    ensures x.Some? ==> t == x.value
    ensures x.None? ==> t == "null"
  {
    if x.Some? then x.value else "null"
  }

  /** `getBaseUrl`: the configured site URL, else `proto://host` from the request headers. */
  function GetBaseUrl(siteUrl: Option<string>, h: Headers): (url: string)
    ensures Truthy(siteUrl) ==> url == StripTrailingSlash(siteUrl.value)
    // without a configured URL: the forwarded host wins over Host, and https is the default scheme
    ensures !Truthy(siteUrl) ==>
              exists proto, host ::
                && url == proto + "://" + host
                && proto == (if Truthy(h.forwardedProto) then h.forwardedProto.value else "https")
                && host == NullableText(if Truthy(h.forwardedHost) then h.forwardedHost else h.host)
  {
    if Truthy(siteUrl) then StripTrailingSlash(siteUrl.value)
    else
      var host := if Truthy(h.forwardedHost) then h.forwardedHost else h.host;
      var proto := if Truthy(h.forwardedProto) then h.forwardedProto.value else "https";
      proto + "://" + NullableText(host)
  }

  /** A configured URL with one trailing slash loses exactly that slash. */
  lemma ConfiguredUrlLosesOneSlash(base: string, h: Headers)
    requires base != ""
    ensures GetBaseUrl(Some(base + "/"), h) == base
  {
    assert (base + "/")[..|base|] == base;
  }

  function Digit(d: nat): char
    requires d < 10
  {
    "0123456789"[d]
  }

  /** `${i}` for a non-negative integer: its decimal digits. */
  function DecimalString(n: nat): (s: string)
    ensures |s| > 0 && forall k :: 0 <= k < |s| ==> '0' <= s[k] <= '9'
  {
    if n < 10 then [Digit(n)] else DecimalString(n / 10) + [Digit(n % 10)]
  }

  function ParseDecimal(s: string): nat
    requires |s| > 0 && forall k :: 0 <= k < |s| ==> '0' <= s[k] <= '9'
  {
    var d := (s[|s| - 1] as int - '0' as int) as nat;
    if |s| == 1 then d else ParseDecimal(s[..|s| - 1]) * 10 + d
  }

  /** The decimal rendering loses nothing, so different chunk ids give different URLs. */
  lemma {:induction false} DecimalRoundTrip(n: nat)
    ensures ParseDecimal(DecimalString(n)) == n
  {
    if n >= 10 {
      DecimalRoundTrip(n / 10);
      var s := DecimalString(n);
      assert s[..|s| - 1] == DecimalString(n / 10);
    }
  }

  /** How many child sitemaps the index lists. */
  const ChunkCount: nat := 20

  const XmlDeclaration := "<?xml version=\"1.0\" encoding=\"UTF-8\"?>"
  /** The namespace of the Sitemap protocol 0.9. */
  const SitemapNamespace := "http://www.sitemaps.org/schemas/sitemap/0.9"
  const IndexOpen := "<sitemapindex xmlns=\"" + SitemapNamespace + "\">"
  const IndexClose := "</sitemapindex>"

  /** The URL of child sitemap `i`. */
  function ChildUrl(baseUrl: string, i: nat): string {
    baseUrl + "/sitemap/" + DecimalString(i) + ".xml"
  }

  const EntryOpen := "  <sitemap><loc>"
  const EntryClose := "</loc></sitemap>"

  /** The `<sitemap>` line of child `i`. */
  function IndexEntry(baseUrl: string, i: nat): string {
    EntryOpen + XmlEscape(ChildUrl(baseUrl, i)) + EntryClose
  }

  /** `lines.join(sep)`. */
  function Join(lines: seq<string>, sep: string): string {
    if lines == [] then ""
    else if |lines| == 1 then lines[0]
    else lines[0] + sep + Join(lines[1..], sep)
  }

  /** The response body of the index route. */
  function IndexBody(baseUrl: string): string {
    XmlDeclaration + "\n" + IndexOpen + "\n"
    + Join(seq(ChunkCount, i requires 0 <= i < ChunkCount => IndexEntry(baseUrl, i)), "\n")
    + "\n" + IndexClose
  }

  /** The text between `<loc>` and `</loc>` of entry `i`. */
  function LocText(baseUrl: string, i: nat): string {
    XmlEscape(ChildUrl(baseUrl, i))
  }

  /**
   * The loc of child `i` is character data without markup that decodes to
   * `baseUrl/sitemap/i.xml`, and different children have different locs.
   */
  lemma EntryLocs(baseUrl: string, i: nat, j: nat)
    ensures Unescape(LocText(baseUrl, i)) == baseUrl + "/sitemap/" + DecimalString(i) + ".xml"
    ensures '<' !in LocText(baseUrl, i) && '>' !in LocText(baseUrl, i)
    ensures i != j ==> LocText(baseUrl, i) != LocText(baseUrl, j)
  {
    XmlEscapeRoundTrip(ChildUrl(baseUrl, i));
    XmlEscapeRoundTrip(ChildUrl(baseUrl, j));
    XmlEscapeIsCharacterData(ChildUrl(baseUrl, i));
    if i != j && LocText(baseUrl, i) == LocText(baseUrl, j) {
      var pre := baseUrl + "/sitemap/";
      var a, b := DecimalString(i), DecimalString(j);
      assert pre + a + ".xml" == pre + b + ".xml";
      assert a == (pre + a + ".xml")[|pre|..|pre| + |a|];
      assert |a| == |b|;
      assert b == (pre + b + ".xml")[|pre|..|pre| + |b|];
      DecimalRoundTrip(i);
      DecimalRoundTrip(j);
    }
  }

  /** `s.split(sep)` for a one-character separator. */
  function Split(s: string, sep: char): (parts: seq<string>)
    ensures |parts| > 0
    decreases |s|
  {
    if sep !in s then [s]
    else
      var k := FirstIndex(s, sep);
      [s[..k]] + Split(s[k + 1..], sep)
  }

  lemma {:induction false} SplitJoin(lines: seq<string>)
    requires lines != [] && forall k :: 0 <= k < |lines| ==> '\n' !in lines[k]
    ensures Split(Join(lines, "\n"), '\n') == lines
  {
    if |lines| == 1 {
      assert Join(lines, "\n") == lines[0];
    } else {
      var x, rest := lines[0], Join(lines[1..], "\n");
      var s := x + "\n" + rest;
      assert Join(lines, "\n") == s;
      assert s[|x|] == '\n';
      assert s[..|x|] == x;
      var k := FirstIndex(s, '\n');
      assert k == |x|;
      assert s[k + 1..] == rest;
      SplitJoin(lines[1..]);
      assert Split(s, '\n') == [x] + Split(rest, '\n');
      assert lines == [x] + lines[1..];
    }
  }

  lemma {:induction false} JoinAppend(a: seq<string>, b: seq<string>)
    requires a != [] && b != []
    ensures Join(a + b, "\n") == Join(a, "\n") + "\n" + Join(b, "\n")
  {
    if |a| > 1 {
      assert (a + b)[1..] == a[1..] + b;
      JoinAppend(a[1..], b);
    } else {
      assert (a + b)[1..] == b;
    }
  }

  /**
   * For a base URL without a line break, the body's lines are the XML declaration,
   * the opening `<sitemapindex>`, one `<sitemap>` line per child 0..19 in order, and
   * the closing tag.
   */
  lemma IndexBodyLines(baseUrl: string)
    requires '\n' !in baseUrl
    ensures var lines := Split(IndexBody(baseUrl), '\n');
            && |lines| == ChunkCount + 3
            && lines[0] == XmlDeclaration && lines[1] == IndexOpen && lines[ChunkCount + 2] == IndexClose
            && forall i :: 0 <= i < ChunkCount ==> lines[i + 2] == IndexEntry(baseUrl, i)
  {
    var lines := BodyLines(baseUrl);
    BodyLinesShape(baseUrl);
    IndexBodyIsJoin(baseUrl);
    LinesHaveNoLineBreak(baseUrl);
    SplitJoin(lines);
  }

  function BodyLines(baseUrl: string): seq<string> {
    [XmlDeclaration, IndexOpen] + seq(ChunkCount, i requires 0 <= i < ChunkCount => IndexEntry(baseUrl, i)) + [IndexClose]
  }

  lemma BodyLinesShape(baseUrl: string)
    ensures var lines := BodyLines(baseUrl);
            && |lines| == ChunkCount + 3
            && lines[0] == XmlDeclaration && lines[1] == IndexOpen && lines[ChunkCount + 2] == IndexClose
            && forall i :: 0 <= i < ChunkCount ==> lines[i + 2] == IndexEntry(baseUrl, i)
  {
    var entries := seq(ChunkCount, i requires 0 <= i < ChunkCount => IndexEntry(baseUrl, i));
    FramedShape(XmlDeclaration, IndexOpen, entries, IndexClose);
  }

  lemma FramedShape(a: string, b: string, middle: seq<string>, c: string)
    ensures var lines := [a, b] + middle + [c];
            && |lines| == |middle| + 3 && lines[0] == a && lines[1] == b && lines[|middle| + 2] == c
            && forall i :: 0 <= i < |middle| ==> lines[i + 2] == middle[i]
  {
  }

  lemma LinesHaveNoLineBreak(baseUrl: string)
    requires '\n' !in baseUrl
    ensures forall k :: 0 <= k < |BodyLines(baseUrl)| ==> '\n' !in BodyLines(baseUrl)[k]
  {
    var lines := BodyLines(baseUrl);
    BodyLinesShape(baseUrl);
    FixedLinesHaveNoLineBreak();
    forall k | 0 <= k < |lines|
      ensures '\n' !in lines[k]
    {
      if 2 <= k < ChunkCount + 2 {
        EntryHasNoLineBreak(baseUrl, k - 2);
      }
    }
  }

  lemma FixedLinesHaveNoLineBreak()
    ensures '\n' !in XmlDeclaration && '\n' !in IndexOpen && '\n' !in IndexClose
  {
    DeclarationHasNoLineBreak();
    OpenTagHasNoLineBreak();
  }

  lemma DeclarationHasNoLineBreak()
    ensures '\n' !in XmlDeclaration
  {
  }

  lemma OpenTagHasNoLineBreak()
    ensures '\n' !in IndexOpen
  {
    NamespaceHasNoLineBreak();
    assert '\n' !in "<sitemapindex xmlns=\"";
  }

  lemma NamespaceHasNoLineBreak()
    ensures '\n' !in SitemapNamespace
  {
  }

  lemma IndexBodyIsJoin(baseUrl: string)
    ensures IndexBody(baseUrl) == Join(BodyLines(baseUrl), "\n")
  {
    var entries := seq(ChunkCount, i requires 0 <= i < ChunkCount => IndexEntry(baseUrl, i));
    JoinAppend([XmlDeclaration, IndexOpen], entries);
    JoinAppend([XmlDeclaration, IndexOpen] + entries, [IndexClose]);
    assert Join([XmlDeclaration, IndexOpen], "\n") == XmlDeclaration + "\n" + IndexOpen;
  }

  lemma EntryHasNoLineBreak(baseUrl: string, i: nat)
    requires '\n' !in baseUrl
    ensures '\n' !in IndexEntry(baseUrl, i)
  {
    var url := ChildUrl(baseUrl, i);
    assert '\n' !in url by {
      assert url == baseUrl + "/sitemap/" + DecimalString(i) + ".xml";
    }
    XmlEscapeIsSinglePass(url);
    EscapedKeepsCharOut(url, '\n');
    EntryTagsHaveNoLineBreak();
  }

  lemma EntryTagsHaveNoLineBreak()
    ensures '\n' !in EntryOpen && '\n' !in EntryClose
  {
  }
}
