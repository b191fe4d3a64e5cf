/**
 * The bookmark side: HTML escaping, the URL-derived pseudo-GUID, the
 * Netscape bookmark HTML that Firefox imports and the bookmark tree that
 * Chrome reads. The clock is a parameter (seconds since the epoch) and the
 * Chrome tree is a datatype rather than the JSON text it is encoded into.
 */
module Bookmarks {
  import opened Text
  import opened Kubernetes

  // ---------------------------------------------------------------------
  // escapeHTML
  // ---------------------------------------------------------------------

  /** The five characters escapeHTML replaces, and their entities. */
  const Replacements: map<char, string> :=
    map['&' := "&amp;", '<' := "&lt;", '>' := "&gt;", '"' := "&quot;", '\'' := "&#39;"]

  function EscapeChar(c: char): string {
    if c in Replacements then Replacements[c] else [c]
  }

  /** What escapeHTML returns: each character replaced or copied, left to right. */
  function Escaped(s: string): string {
    if s == [] then "" else Escaped(s[..|s| - 1]) + EscapeChar(s[|s| - 1])
  }

  method EscapeHtml(s: string) returns (result: string)
    ensures result == Escaped(s)
  {
    result := "";
    var i := 0;
    while i < |s|
      invariant 0 <= i <= |s|
      invariant result == Escaped(s[..i])
    {
      assert s[..i + 1][..i] == s[..i];
      var c := s[i];
      if c in Replacements {
        result := result + Replacements[c];
      } else {
        result := result + [c];
      }
      i := i + 1;
    }
    assert s[..i] == s;
  }

  lemma {:induction false} EscapedConcat(a: string, b: string)
    ensures Escaped(a + b) == Escaped(a) + Escaped(b)
    decreases |b|
  {
    if b == [] {
      assert a + b == a;
    } else {
      var n := |b| - 1;
      var ab := a + b;
      assert ab[..|ab| - 1] == a + b[..n];
      assert ab[|ab| - 1] == b[n];
      EscapedConcat(a, b[..n]);
      AppendAssoc(Escaped(a), Escaped(b[..n]), EscapeChar(b[n]));
    }
  }

  /** Escaping the first character and then the rest. */
  lemma EscapedCons(s: string)
    requires s != []
    ensures Escaped(s) == EscapeChar(s[0]) + Escaped(s[1..])
  {
    assert s == [s[0]] + s[1..];
    EscapedConcat([s[0]], s[1..]);
    assert Escaped([s[0]]) == EscapeChar(s[0]) by {
      assert [s[0]][..0] == [];
    }
  }

  predicate IsSpecial(c: char) {
    c == '&' || c == '<' || c == '>' || c == '"' || c == '\''
  }

  /** A string without any of the five characters is returned unchanged. */
  lemma {:induction false} EscapedIdentity(s: string)
    requires Plain(s)
    ensures Escaped(s) == s
    decreases |s|
  {
    if s != [] {
      var n := |s| - 1;
      assert !IsSpecial(s[n]);
      assert s[n] !in Replacements.Keys;
      EscapedIdentity(s[..n]);
      assert s == s[..n] + [s[n]];
    }
  }

  /** The output holds no raw '<', '>', '"' or '\''. */
  lemma {:induction false} EscapedIsSafe(s: string)
    ensures forall i :: 0 <= i < |Escaped(s)| ==>
      Escaped(s)[i] != '<' && Escaped(s)[i] != '>' && Escaped(s)[i] != '"' && Escaped(s)[i] != '\''
    decreases |s|
  {
    if s != [] {
      var n := |s| - 1;
      EscapedIsSafe(s[..n]);
      var e := EscapeChar(s[n]);
      assert forall i :: 0 <= i < |e| ==> e[i] != '<' && e[i] != '>' && e[i] != '"' && e[i] != '\'';
    }
  }

  /** Holds none of the five characters. */
  predicate Plain(s: string) {
    forall i :: 0 <= i < |s| ==> !IsSpecial(s[i])
  }

  lemma EscapedSingle(c: char)
    ensures Escaped([c]) == EscapeChar(c)
  {
    assert [c][..0] == [];
  }

  /**
   * The rows of the package's escape table test, with the plain words
   * ("simple", "script", "quote", "double", "a", "b") left general.
   */
  lemma EscapedTestCases(w: string, a: string, b: string)
    requires Plain(w) && Plain(a) && Plain(b)
    ensures Escaped(w) == w
    ensures Escaped("<" + w + ">") == "&lt;" + w + "&gt;"
    ensures Escaped(a + "&" + b) == a + "&amp;" + b
    ensures Escaped("'" + w + "'") == "&#39;" + w + "&#39;"
    ensures Escaped("\"" + w + "\"") == "&quot;" + w + "&quot;"
  {
    EscapedIdentity(w);
    EscapedIdentity(a);
    EscapedIdentity(b);
    EscapedSingle('<');
    EscapedSingle('>');
    EscapedSingle('&');
    EscapedSingle('\'');
    EscapedSingle('"');
    EscapedConcat("<" + w, ">");
    EscapedConcat("<", w);
    EscapedConcat(a + "&", b);
    EscapedConcat(a, "&");
    EscapedConcat("'" + w, "'");
    EscapedConcat("'", w);
    EscapedConcat("\"" + w, "\"");
    EscapedConcat("\"", w);
  }

  /** Reads the five entities back, left to right. */
  function Unescape(t: string): string
    decreases |t|
  {
    if t == [] then ""
    else if StartsWith(t, "&amp;") then "&" + Unescape(t[5..])
    else if StartsWith(t, "&lt;") then "<" + Unescape(t[4..])
    else if StartsWith(t, "&gt;") then ">" + Unescape(t[4..])
    else if StartsWith(t, "&quot;") then "\"" + Unescape(t[6..])
    else if StartsWith(t, "&#39;") then "'" + Unescape(t[5..])
    else [t[0]] + Unescape(t[1..])
  }

  lemma UnescapeEntity(e: string, c: char, rest: string)
    requires (e, c) in {("&amp;", '&'), ("&lt;", '<'), ("&gt;", '>'), ("&quot;", '"'), ("&#39;", '\'')}
    ensures Unescape(e + rest) == [c] + Unescape(rest)
  {
    var t := e + rest;
    assert t[..|e|] == e && t[|e|..] == rest;
    assert t[0] == '&' && t[1] == e[1];
  }

  lemma UnescapePlain(c: char, rest: string)
    requires !IsSpecial(c)
    ensures Unescape([c] + rest) == [c] + Unescape(rest)
  {
    var t := [c] + rest;
    assert t[0] == c && t[1..] == rest;
    NotStartsWithHead(t, "&amp;");
    NotStartsWithHead(t, "&lt;");
    NotStartsWithHead(t, "&gt;");
    NotStartsWithHead(t, "&quot;");
    NotStartsWithHead(t, "&#39;");
  }

  lemma UnescapeChar(c: char, rest: string)
    ensures Unescape(EscapeChar(c) + rest) == [c] + Unescape(rest)
  {
    if c == '&' {
      UnescapeEntity("&amp;", c, rest);
    } else if c == '<' {
      UnescapeEntity("&lt;", c, rest);
    } else if c == '>' {
      UnescapeEntity("&gt;", c, rest);
    } else if c == '"' {
      UnescapeEntity("&quot;", c, rest);
    } else if c == '\'' {
      UnescapeEntity("&#39;", c, rest);
    } else {
      UnescapePlain(c, rest);
    }
  }

  /** Escaping loses nothing: the entities read back to the original string. */
  lemma {:induction false} UnescapeEscaped(s: string)
    ensures Unescape(Escaped(s)) == s
    decreases |s|
  {
    if s != [] {
      var rest := Escaped(s[1..]);
      calc {
        Unescape(Escaped(s));
        == { EscapedCons(s); }
        Unescape(EscapeChar(s[0]) + rest);
        == { UnescapeChar(s[0], rest); }
        [s[0]] + Unescape(rest);
        == { UnescapeEscaped(s[1..]); }
        [s[0]] + s[1..];
      }
      assert s == [s[0]] + s[1..];
    }
  }

  /** Different titles stay different after escaping. */
  lemma EscapedInjective(s: string, t: string)
    ensures Escaped(s) == Escaped(t) <==> s == t
  {
    UnescapeEscaped(s);
    UnescapeEscaped(t);
  }

  // ---------------------------------------------------------------------
  // generateGUID
  // ---------------------------------------------------------------------

  /** 2^64: Go's `int` is 64 bits wide here, so the hash wraps around modulo this. */
  const Wrap: nat := 0x1_0000_0000_0000_0000

  /**
   * One step of the rolling hash. The value kept is the two's-complement bit
   * pattern of Go's signed `int`, read as an unsigned number below 2^64.
   */
  function HashStep(h: nat, c: char): nat {
    (h * 31 + c as int) % Wrap
  }

  /** The hash after reading every code point of s, starting from 0. */
  function Hash(s: string): (h: nat)
    ensures h < Wrap
  {
    if s == [] then 0 else HashStep(Hash(s[..|s| - 1]), s[|s| - 1])
  }

  /** `hash & 0xffffffff` and `hash & 0xffffffffffff`: the low 32 and 48 bits. */
  const Two32: nat := 0x1_0000_0000
  const Two48: nat := 0x1_0000_0000_0000

  /** `%08x-0000-4000-a000-%012x` of the low 32 and the low 48 bits of the hash. */
  function GuidOfHash(h: nat): string {
    Hex(h % Two32, 8) + "-0000-4000-a000-" + Hex(h % Two48, 12)
  }

  function GuidOf(url: string): string {
    GuidOfHash(Hash(url))
  }

  method GenerateGuid(url: string) returns (guid: string)
    ensures guid == GuidOf(url)
  {
    var hash: nat := 0;
    var i := 0;
    while i < |url|
      invariant 0 <= i <= |url|
      invariant hash == Hash(url[..i])
    {
      assert url[..i + 1][..i] == url[..i];
      hash := (hash * 31 + url[i] as int) % Wrap;
      i := i + 1;
    }
    assert url[..i] == url;
    guid := Hex(hash % Two32, 8) + "-0000-4000-a000-" + Hex(hash % Two48, 12);
  }

  /** 36 characters in the 8-4-4-4-12 layout, lower-case hex around a fixed middle. */
  lemma GuidShape(h: nat)
    ensures |GuidOfHash(h)| == 36
    ensures GuidOfHash(h)[8..24] == "-0000-4000-a000-"
    ensures forall i :: (0 <= i < 8 || 24 <= i < 36) ==> IsHexDigit(GuidOfHash(h)[i])
  {
    var g := GuidOfHash(h);
    HexIsLowerHex(h % Two32, 8);
    HexIsLowerHex(h % Two48, 12);
    assert g[..8] == Hex(h % Two32, 8);
    assert g[24..] == Hex(h % Two48, 12);
    assert forall i :: 24 <= i < 36 ==> g[i] == g[24..][i - 24];
  }

  /** The first segment repeats the last 8 digits of the final segment: both are the low 32 bits. */
  lemma GuidSegmentsAgree(h: nat)
    ensures GuidOfHash(h)[..8] == GuidOfHash(h)[28..]
  {
    var g := GuidOfHash(h);
    var low48 := h % Two48;
    assert g[..8] == Hex(h % Two32, 8);
    assert g[28..] == Hex(low48, 12)[4..];
    HexSuffix(low48, 12, 8);
    HexMod(low48, 8);
    Pow16Values();
    ModMod(h, Two32, 0x1_0000);
  }

  /** The hex segments read back to the low 32 and the low 48 bits of the hash. */
  lemma GuidSegmentsParse(h: nat)
    ensures ParseHex(GuidOfHash(h)[..8]) == h % Two32
    ensures ParseHex(GuidOfHash(h)[24..]) == h % Two48
  {
    var g := GuidOfHash(h);
    assert g[..8] == Hex(h % Two32, 8);
    assert g[24..] == Hex(h % Two48, 12);
    Pow16Values();
    HexRoundTrip(h % Two32, 8);
    HexRoundTrip(h % Two48, 12);
  }

  /** Two hashes give the same GUID exactly when they agree on the low 48 bits. */
  lemma GuidEqualIff(h1: nat, h2: nat)
    ensures GuidOfHash(h1) == GuidOfHash(h2) <==> h1 % Two48 == h2 % Two48
  {
    GuidSegmentsParse(h1);
    GuidSegmentsParse(h2);
    if h1 % Two48 == h2 % Two48 {
      ModMod(h1, Two32, 0x1_0000);
      ModMod(h2, Two32, 0x1_0000);
    }
  }

  /** Distinct URLs can share a GUID: "Aa" and "BB" both hash to 2112. */
  lemma GuidCollision()
    ensures "Aa" != "BB" && GuidOf("Aa") == GuidOf("BB")
  {
    assert "Aa"[..1] == "A" && "A"[..0] == [];
    assert "BB"[..1] == "B" && "B"[..0] == [];
    assert Hash("Aa") == 2112;
    assert Hash("BB") == 2112;
  }

  // ---------------------------------------------------------------------
  // Titles and timestamps
  // ---------------------------------------------------------------------

  /** `fmt.Sprintf("%s (%s)", host, namespace)`. */
  function Title(info: IngressInfo): string {
    info.host + " (" + info.namespace + ")"
  }

  /** Chrome's timestamps: the seconds followed by six zeros. */
  function Stamp(ts: nat): string {
    Decimal(ts) + "000000"
  }

  /** A stamp reads back as the same instant in microseconds. */
  lemma StampIsMicroseconds(ts: nat)
    ensures ParseDecimal(Stamp(ts)) == ts * 1000000
  {
    ParseAppendSixZeros(Decimal(ts));
    DecimalRoundTrip(ts);
  }

  // ---------------------------------------------------------------------
  // GenerateFirefox
  // ---------------------------------------------------------------------

  const Doctype: string := "<!DOCTYPE NETSCAPE-Bookmark-file-1>"

  /** Everything up to and including the opening of the ingress folder's list. */
  function Preamble(ts: nat): string {
    Doctype + PreambleBody(ts)
  }

  function PreambleBody(ts: nat): string {
    "\n"
    + "<!-- This is an automatically generated file.\n"
    + "     It will be read and overwritten.\n"
    + "     DO NOT EDIT! -->\n"
    + "<META HTTP-EQUIV=\"Content-Type\" CONTENT=\"text/html; charset=UTF-8\">\n"
    + "<TITLE>Bookmarks</TITLE>\n"
    + "<H1>Bookmarks Menu</H1>\n"
    + "\n"
    + "<DL><p>\n"
    + "    <DT><H3 ADD_DATE=\"" + Decimal(ts) + "\" LAST_MODIFIED=\"" + Decimal(ts) + "\">Kubernetes Ingresses</H3>\n"
    + "    <DL><p>\n"
  }

  const LinkStart: string := "        <DT><A HREF=\""

  /** The attributes after the HREF: the same timestamp for every bookmark. */
  function DateAttribute(ts: nat): string {
    "\" ADD_DATE=\"" + Decimal(ts) + "\">"
  }

  const LinkEnd: string := "</A>\n"

  /** One bookmark: the raw URL as HREF and the escaped title as link text. */
  function EntryLine(info: IngressInfo, ts: nat): string {
    LinkStart + info.url + DateAttribute(ts) + Escaped(Title(info)) + LinkEnd
  }

  function Entries(infos: seq<IngressInfo>, ts: nat): string {
    if infos == [] then "" else Entries(infos[..|infos| - 1], ts) + EntryLine(infos[|infos| - 1], ts)
  }

  /** Extending the records by one appends that record's line. */
  lemma EntriesSnoc(infos: seq<IngressInfo>, i: nat, ts: nat)
    requires i < |infos|
    ensures Entries(infos[..i + 1], ts) == Entries(infos[..i], ts) + EntryLine(infos[i], ts)
  {
    assert infos[..i + 1][..i] == infos[..i];
  }

  const Closing: string := "    </DL><p>\n</DL><p>\n"

  function FirefoxDocument(infos: seq<IngressInfo>, ts: nat): string {
    Preamble(ts) + Entries(infos, ts) + Closing
  }

  method GenerateFirefox(ingresses: seq<IngressInfo>, timestamp: nat) returns (html: string)
    ensures html == FirefoxDocument(ingresses, timestamp)
  {
    html := Preamble(timestamp);
    var i := 0;
    while i < |ingresses|
      invariant 0 <= i <= |ingresses|
      invariant html == Preamble(timestamp) + Entries(ingresses[..i], timestamp)
    {
      var ingress := ingresses[i];
      var escaped := EscapeHtml(Title(ingress));
      var line := LinkStart + ingress.url + DateAttribute(timestamp) + escaped + LinkEnd;
      EntriesSnoc(ingresses, i, timestamp);
      AppendAssoc(Preamble(timestamp), Entries(ingresses[..i], timestamp), line);
      html := html + line;
      i := i + 1;
    }
    assert ingresses[..i] == ingresses;
    html := html + Closing;
  }

  lemma {:induction false} EntriesConcat(a: seq<IngressInfo>, b: seq<IngressInfo>, ts: nat)
    ensures Entries(a + b, ts) == Entries(a, ts) + Entries(b, ts)
    decreases |b|
  {
    if b == [] {
      assert a + b == a;
    } else {
      var n := |b| - 1;
      assert (a + b)[..|a + b| - 1] == a + b[..n];
      EntriesConcat(a, b[..n], ts);
      AppendAssoc(Entries(a, ts), Entries(b[..n], ts), EntryLine(b[n], ts));
    }
  }

  /** One line per record, in input order: record k's line follows the lines of the records before it. */
  lemma EntriesSplit(infos: seq<IngressInfo>, ts: nat, k: nat)
    requires k < |infos|
    ensures Entries(infos, ts) == Entries(infos[..k], ts) + EntryLine(infos[k], ts) + Entries(infos[k + 1..], ts)
  {
    assert infos == infos[..k] + [infos[k]] + infos[k + 1..];
    EntriesConcat(infos[..k] + [infos[k]], infos[k + 1..], ts);
    EntriesConcat(infos[..k], [infos[k]], ts);
    assert Entries([infos[k]], ts) == EntryLine(infos[k], ts) by {
      assert [infos[k]][..0] == [];
    }
  }

  /** The document opens with the DOCTYPE preamble and ends with the two closing list tags. */
  lemma FirefoxFrame(infos: seq<IngressInfo>, ts: nat)
    ensures StartsWith(FirefoxDocument(infos, ts), Doctype)
    ensures StartsWith(FirefoxDocument(infos, ts), Preamble(ts))
    ensures FirefoxDocument(infos, ts)[|FirefoxDocument(infos, ts)| - |Closing|..] == Closing
    ensures infos == [] ==> FirefoxDocument(infos, ts) == Preamble(ts) + Closing
  {
    var pre := Preamble(ts);
    var body := pre + Entries(infos, ts);
    var doc := body + Closing;
    StartsWithConcat(body, Closing);
    StartsWithConcat(pre, Entries(infos, ts));
    StartsWithConcat(Doctype, PreambleBody(ts));
    StartsWithTransitive(doc, body, pre);
    StartsWithTransitive(doc, pre, Doctype);
    assert doc[|body|..] == Closing;
    if infos == [] {
      assert body == pre;
    }
  }

  /** Each record's URL appears raw, and its title escaped, in the document. */
  lemma FirefoxListsRecord(infos: seq<IngressInfo>, ts: nat, k: nat)
    requires k < |infos|
    ensures Contains(FirefoxDocument(infos, ts), infos[k].url)
    ensures Contains(FirefoxDocument(infos, ts), Escaped(Title(infos[k])))
  {
    var info := infos[k];
    var url := info.url;
    var text := Escaped(Title(info));
    var a := LinkStart + url;
    var b := a + DateAttribute(ts);
    var c := b + text;
    var line := c + LinkEnd;
    ContainsSelf(url);
    ContainsRight(LinkStart, url, url);
    ContainsLeft(a, DateAttribute(ts), url);
    ContainsLeft(b, text, url);
    ContainsLeft(c, LinkEnd, url);
    ContainsSelf(text);
    ContainsRight(b, text, text);
    ContainsLeft(c, LinkEnd, text);
    EntriesSplit(infos, ts, k);
    var before := Entries(infos[..k], ts);
    var after := Entries(infos[k + 1..], ts);
    var pre := Preamble(ts);
    forall t | t == url || t == text
      ensures Contains(FirefoxDocument(infos, ts), t)
    {
      ContainsRight(before, line, t);
      ContainsLeft(before + line, after, t);
      ContainsRight(pre, Entries(infos, ts), t);
      ContainsLeft(pre + Entries(infos, ts), Closing, t);
    }
  }

  /** A title without special characters, such as "example.com (default)", appears as it is. */
  lemma FirefoxListsPlainTitle(infos: seq<IngressInfo>, ts: nat, k: nat)
    requires k < |infos|
    requires Plain(Title(infos[k]))
    ensures Contains(FirefoxDocument(infos, ts), Title(infos[k]))
  {
    FirefoxListsRecord(infos, ts, k);
    EscapedIdentity(Title(infos[k]));
  }

  // ---------------------------------------------------------------------
  // GenerateChrome
  // ---------------------------------------------------------------------

  /** A node of Chrome's bookmark tree; the JSON "type" is the constructor. */
  datatype Node =
    | UrlNode(dateAdded: string, guid: string, id: string, name: string, url: string)
    | FolderNode(dateAdded: string, dateModified: string, guid: string, id: string, name: string, children: seq<Node>)

  datatype Roots = Roots(bookmarkBar: Node, other: Node, synced: Node)

  datatype ChromeBookmarks = ChromeBookmarks(checksum: string, roots: Roots, version: int)

  function TypeOf(n: Node): string {
    if n.UrlNode? then "url" else "folder"
  }

  /** The bookmark for the k-th record. */
  function ChildNode(info: IngressInfo, k: nat, ts: nat): Node {
    UrlNode(Stamp(ts), GuidOf(info.url), Decimal(k + 1), Title(info), info.url)
  }

  /** The ingress folder's children: one bookmark per record, in order. */
  function Children(infos: seq<IngressInfo>, ts: nat): (r: seq<Node>)
    ensures |r| == |infos|
  {
    if infos == [] then []
    else Children(infos[..|infos| - 1], ts) + [ChildNode(infos[|infos| - 1], |infos| - 1, ts)]
  }

  /** Child k is the bookmark for record k. */
  lemma {:induction false} ChildrenAt(infos: seq<IngressInfo>, ts: nat, k: nat)
    requires k < |infos|
    ensures Children(infos, ts)[k] == ChildNode(infos[k], k, ts)
    decreases |infos|
  {
    var n := |infos| - 1;
    var init := Children(infos[..n], ts);
    assert Children(infos, ts) == init + [ChildNode(infos[n], n, ts)];
    if k < n {
      ChildrenAt(infos[..n], ts, k);
      assert infos[..n][k] == infos[k];
      assert (init + [ChildNode(infos[n], n, ts)])[k] == init[k];
    }
  }

  /** Extending the records by one extends the children by its bookmark. */
  lemma ChildrenSnoc(infos: seq<IngressInfo>, i: nat, ts: nat)
    requires i < |infos|
    ensures Children(infos[..i + 1], ts) == Children(infos[..i], ts) + [ChildNode(infos[i], i, ts)]
  {
    assert infos[..i + 1][..i] == infos[..i];
  }

  /** A folder created and modified at the generation time. */
  function Folder(ts: nat, guid: string, id: string, name: string, children: seq<Node>): Node {
    FolderNode(Stamp(ts), Stamp(ts), guid, id, name, children)
  }

  /** The fixed tree around the ingress folder's children. */
  function ChromeTree(children: seq<Node>, ts: nat): ChromeBookmarks {
    ChromeBookmarks(
      "computed_checksum",
      Roots(
        Folder(ts, "00000000-0000-4000-a000-000000000000", "0", "Bookmarks bar",
               [Folder(ts, "00000000-0000-4000-a000-000000000001", "1", "Kubernetes Ingresses", children)]),
        Folder(ts, "00000000-0000-4000-a000-000000000002", "2", "Other bookmarks", []),
        Folder(ts, "00000000-0000-4000-a000-000000000003", "3", "Mobile bookmarks", [])),
      1)
  }

  method GenerateChrome(ingresses: seq<IngressInfo>, timestamp: nat) returns (bookmarks: ChromeBookmarks)
    ensures bookmarks == ChromeTree(Children(ingresses, timestamp), timestamp)
  {
    var children: seq<Node> := [];
    var i := 0;
    while i < |ingresses|
      invariant 0 <= i <= |ingresses|
      invariant children == Children(ingresses[..i], timestamp)
    {
      var ingress := ingresses[i];
      var guid := GenerateGuid(ingress.url);
      var child := UrlNode(Stamp(timestamp), guid, Decimal(|children| + 1), Title(ingress), ingress.url);
      ChildrenSnoc(ingresses, i, timestamp);
      children := children + [child];
      i := i + 1;
    }
    assert ingresses[..i] == ingresses;
    bookmarks := ChromeTree(children, timestamp);
  }

  /**
   * The bookmark bar holds exactly one entry, the "Kubernetes Ingresses"
   * folder with the given children; "other" and "synced" are empty folders;
   * the four folders carry the ids "0" to "3" and the generation time.
   */
  lemma ChromeTreeShape(children: seq<Node>, ts: nat)
    ensures var t := ChromeTree(children, ts);
      && t.checksum == "computed_checksum" && t.version == 1
      && t.roots.bookmarkBar.FolderNode? && t.roots.bookmarkBar.name == "Bookmarks bar"
      && |t.roots.bookmarkBar.children| == 1
      && t.roots.bookmarkBar.children[0].FolderNode?
      && t.roots.bookmarkBar.children[0].name == "Kubernetes Ingresses"
      && t.roots.bookmarkBar.children[0].children == children
      && t.roots.other.FolderNode? && t.roots.other.children == []
      && t.roots.synced.FolderNode? && t.roots.synced.children == []
    ensures var t := ChromeTree(children, ts);
      && t.roots.bookmarkBar.id == "0" && t.roots.bookmarkBar.children[0].id == "1"
      && t.roots.other.id == "2" && t.roots.synced.id == "3"
    ensures var t := ChromeTree(children, ts);
      && ParseDecimal(t.roots.bookmarkBar.id) == 0
      && ParseDecimal(t.roots.bookmarkBar.children[0].id) == 1
      && ParseDecimal(t.roots.other.id) == 2
      && ParseDecimal(t.roots.synced.id) == 3
    ensures var t := ChromeTree(children, ts);
      && t.roots.bookmarkBar.dateAdded == Stamp(ts) && t.roots.bookmarkBar.dateModified == Stamp(ts)
      && t.roots.bookmarkBar.children[0].dateAdded == Stamp(ts)
      && t.roots.bookmarkBar.children[0].dateModified == Stamp(ts)
      && t.roots.other.dateAdded == Stamp(ts) && t.roots.other.dateModified == Stamp(ts)
      && t.roots.synced.dateAdded == Stamp(ts) && t.roots.synced.dateModified == Stamp(ts)
    ensures var t := ChromeTree(children, ts);
      && t.roots.bookmarkBar.guid == "00000000-0000-4000-a000-000000000000"
      && t.roots.bookmarkBar.children[0].guid == "00000000-0000-4000-a000-000000000001"
      && t.roots.other.guid == "00000000-0000-4000-a000-000000000002"
      && t.roots.synced.guid == "00000000-0000-4000-a000-000000000003"
  {
    assert ParseDecimal("0") == 0 && ParseDecimal("1") == 1;
    assert ParseDecimal("2") == 2 && ParseDecimal("3") == 3;
  }

  /** No two of the four folders share a GUID. */
  lemma RootGuidsDistinct(children: seq<Node>, ts: nat)
    ensures var t := ChromeTree(children, ts);
      var guids := [t.roots.bookmarkBar.guid, t.roots.bookmarkBar.children[0].guid, t.roots.other.guid, t.roots.synced.guid];
      forall i, j :: 0 <= i < j < 4 ==> guids[i] != guids[j]
  {
    var t := ChromeTree(children, ts);
    var guids := [t.roots.bookmarkBar.guid, t.roots.bookmarkBar.children[0].guid, t.roots.other.guid, t.roots.synced.guid];
    assert guids[0][35] == '0' && guids[1][35] == '1' && guids[2][35] == '2' && guids[3][35] == '3';
  }

  /** The children's ids are "1", "2", ... in order, so no two children share an id. */
  lemma ChildIds(infos: seq<IngressInfo>, ts: nat)
    ensures forall k :: 0 <= k < |infos| ==> ParseDecimal(Children(infos, ts)[k].id) == k + 1
    ensures forall j, k :: 0 <= j < k < |infos| ==> Children(infos, ts)[j].id != Children(infos, ts)[k].id
  {
    var c := Children(infos, ts);
    forall k | 0 <= k < |infos| ensures ParseDecimal(c[k].id) == k + 1 {
      ChildrenAt(infos, ts, k);
      DecimalRoundTrip(k + 1);
    }
    forall j, k | 0 <= j < k < |infos| ensures c[j].id != c[k].id {
      ChildrenAt(infos, ts, j);
      ChildrenAt(infos, ts, k);
      DecimalInjective(j + 1, k + 1);
    }
  }

  /**
   * Child k is a "url" bookmark for record k: its URL, the unescaped title,
   * a GUID of the fixed layout derived from the URL, and the timestamp in
   * microseconds.
   */
  lemma ChildFacts(infos: seq<IngressInfo>, ts: nat, k: nat)
    requires k < |infos|
    ensures var c := Children(infos, ts)[k];
      && TypeOf(c) == "url"
      && c.url == infos[k].url
      && c.name == infos[k].host + " (" + infos[k].namespace + ")"
      && c.guid == GuidOf(infos[k].url)
      && |c.guid| == 36 && c.guid[8..24] == "-0000-4000-a000-"
      && ParseDecimal(c.dateAdded) == ts * 1000000
  {
    ChildrenAt(infos, ts, k);
    GuidShape(Hash(infos[k].url));
    StampIsMicroseconds(ts);
  }
}
