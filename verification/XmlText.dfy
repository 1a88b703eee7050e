/** Serializing an element tree: a pass that sizes the text, and a pass that writes it. */
module XmlText {
  import opened Basics
  import opened XmlQuote

  const NS_LIMIT: int := 0x8000_0000  // namespace numbers are 32-bit ints

  /** A language value is a string with an identity: elements inherit the very string of their parent. */
  datatype Lang = NoLang | Lang(id: nat, text: string)

  datatype Attr = Attr(name: string, ns: int, value: string)

  datatype Elem = Elem(name: string, ns: int, lang: Lang, attrs: seq<Attr>, first: seq<string>, children: seq<Child>)

  /** A child element and the text that follows its end tag. */
  datatype Child = Child(elem: Elem, following: seq<string>)

  datatype Style = FULL | INNER | LANG_INNER | FULL_NS_LANG

  /** What an element knows of its parent. */
  datatype Up = Root | Under(lang: Lang)

  /** An optional table from the tree's namespace numbers to those that are written. */
  datatype NsMap = NoMap | NsMap(table: seq<int>)

  // ---------- the text ----------

  function Concat(ts: seq<string>): string {
    if |ts| == 0 then [] else ts[0] + Concat(ts[1..])
  }

  predicate Numbered(ns: int, nsMap: NsMap) {
    ns == NS_NONE ||
    match nsMap
    case NoMap => 0 <= ns < NS_LIMIT
    case NsMap(table) => 0 <= ns < |table| && 0 <= table[ns] < NS_LIMIT
  }

  function Mapped(ns: int, nsMap: NsMap): nat
    requires Numbered(ns, nsMap) && ns != NS_NONE
  {
    match nsMap
    case NoMap => ns
    case NsMap(table) => table[ns]
  }

  predicate AllNumbered(e: Elem, nsMap: NsMap) {
    && Numbered(e.ns, nsMap)
    && (forall i :: 0 <= i < |e.attrs| ==> Numbered(e.attrs[i].ns, nsMap))
    && (forall i :: 0 <= i < |e.children| ==> AllNumbered(e.children[i].elem, nsMap))
  }

  function QName(name: string, ns: int, nsMap: NsMap): string
    requires Numbered(ns, nsMap)
  {
    if ns == NS_NONE then name else "ns" + Decimal(Mapped(ns, nsMap)) + ":" + name
  }

  function AttrText(a: Attr, nsMap: NsMap): string
    requires Numbered(a.ns, nsMap)
  {
    " " + QName(a.name, a.ns, nsMap) + "=\"" + a.value + "\""
  }

  function AttrsText(attrs: seq<Attr>, nsMap: NsMap): string
    requires forall i :: 0 <= i < |attrs| ==> Numbered(attrs[i].ns, nsMap)
  {
    if |attrs| == 0 then [] else AttrText(attrs[0], nsMap) + AttrsText(attrs[1..], nsMap)
  }

  function LangText(lang: Lang): string {
    if lang.NoLang? then [] else " xml:lang=\"" + lang.text + "\""
  }

  /** The element has a language of its own. */
  predicate OwnLang(e: Elem, up: Up) {
    e.lang.Lang? && (up.Root? || up.lang.NoLang? || up.lang.id != e.lang.id)
  }

  function DeclText(i: nat, uri: string): string {
    " xmlns:ns" + Decimal(i) + "=\"" + uri + "\""
  }

  /** The declarations of the first k namespaces, the last one first. */
  function DeclsText(uris: seq<string>, k: nat): string
    requires k <= |uris|
  {
    if k == 0 then [] else DeclText(k - 1, uris[k - 1]) + DeclsText(uris, k - 1)
  }

  predicate Empty(e: Elem) {
    |e.children| == 0 && |e.first| == 0
  }

  /** The children from k on, with the texts that follow them. */
  function ContentText(e: Elem, k: nat, nsMap: NsMap): string
    requires k <= |e.children| && AllNumbered(e, nsMap)
    decreases e, |e.children| - k, 0
  {
    if k == |e.children| then []
    else FullText(e.children[k].elem, Under(e.lang), nsMap) + Concat(e.children[k].following) +
         ContentText(e, k + 1, nsMap)
  }

  function InnerText(e: Elem, nsMap: NsMap): string
    requires AllNumbered(e, nsMap)
    decreases e, |e.children|, 1
  {
    Concat(e.first) + ContentText(e, 0, nsMap)
  }

  /** An element between its tags; `extra` is what the start tag has after the attributes. */
  function Tagged(e: Elem, extra: string, nsMap: NsMap): string
    requires AllNumbered(e, nsMap)
    decreases e, |e.children|, 2
  {
    var start := "<" + QName(e.name, e.ns, nsMap) + AttrsText(e.attrs, nsMap) + extra;
    if Empty(e) then start + "/>" else start + ">" + InnerText(e, nsMap) + "</" + QName(e.name, e.ns, nsMap) + ">"
  }

  function FullText(e: Elem, up: Up, nsMap: NsMap): string
    requires AllNumbered(e, nsMap)
    decreases e, |e.children|, 3
  {
    Tagged(e, if OwnLang(e, up) then LangText(e.lang) else [], nsMap)
  }

  function Text(e: Elem, style: Style, up: Up, uris: seq<string>, nsMap: NsMap): string
    requires AllNumbered(e, nsMap)
  {
    match style
    case FULL => FullText(e, up, nsMap)
    case INNER => InnerText(e, nsMap)
    case LANG_INNER => (if e.lang.Lang? then e.lang.text else []) + ['\0'] + InnerText(e, nsMap)
    case FULL_NS_LANG => Tagged(e, LangText(e.lang) + DeclsText(uris, |uris|), nsMap)
  }

  // ---------- quoting ----------

  function QuotedTexts(ts: seq<string>): seq<string> {
    seq(|ts|, i requires 0 <= i < |ts| => Quoted(ts[i], false))
  }

  function QuotedAttrs(attrs: seq<Attr>): seq<Attr> {
    seq(|attrs|, i requires 0 <= i < |attrs| => attrs[i].(value := Quoted(attrs[i].value, true)))
  }

  /** All texts and attribute values are quoted, but no name and no language. */
  function QuotedElem(e: Elem): Elem {
    e.(attrs := QuotedAttrs(e.attrs), first := QuotedTexts(e.first),
       children := seq(|e.children|, i requires 0 <= i < |e.children| => QuotedChild(e.children[i])))
  }

  function QuotedChild(c: Child): Child {
    Child(QuotedElem(c.elem), QuotedTexts(c.following))
  }

  method QuoteTexts(ts: seq<string>) returns (r: seq<string>)
    ensures r == QuotedTexts(ts)
  {
    r := [];
    for i := 0 to |ts|
      invariant r == QuotedTexts(ts[..i])
    {
      var text := QuoteString(ts[i], false);
      r := r + [text];
    }
    assert ts[..|ts|] == ts;
  }

  /** apr_xml_quote_elem */
  method QuoteElem(e: Elem) returns (r: Elem)
    ensures r == QuotedElem(e)
    decreases e
  {
    var first := QuoteTexts(e.first);
    var attrs, children := [], [];
    for i := 0 to |e.attrs|
      invariant attrs == QuotedAttrs(e.attrs[..i])
    {
      var value := QuoteString(e.attrs[i].value, true);
      attrs := attrs + [e.attrs[i].(value := value)];
    }
    for i := 0 to |e.children|
      invariant |children| == i && forall j :: 0 <= j < i ==> children[j] == QuotedChild(e.children[j])
    {
      var elem := QuoteElem(e.children[i].elem);
      var following := QuoteTexts(e.children[i].following);
      children := children + [Child(elem, following)];
    }
    assert e.attrs[..|e.attrs|] == e.attrs;
    r := e.(attrs := attrs, first := first, children := children);
  }

  // ---------- sizing ----------

  /** APR_XML_NS_LEN */
  function NsLen(n: int): nat {
    if n < 10 then 1 else if n < 100 then 2 else if n < 1000 then 3 else if n < 10000 then 4 else if n < 100000 then 5
    else if n < 1000000 then 6 else if n < 10000000 then 7 else if n < 100000000 then 8 else if n < 1000000000 then 9
      else 10
  }

  lemma {:induction false} NsLenCountsDigits(n: nat)
    requires n < NS_LIMIT
    ensures NsLen(n) == |Decimal(n)|
  {
    if n >= 10 {
      NsLenCountsDigits(n / 10);
    }
  }

  /** How much the sizing pass counts above what the writer emits. */
  function Slack(e: Elem, style: Style, up: Up, uris: seq<string>): nat {
    if style != FULL_NS_LANG then 0
    else (if OwnLang(e, up) then |LangText(e.lang)| else 0)
         + (if Empty(e) then 0 else |DeclsText(uris, |uris|)| + |LangText(e.lang)|)
  }

  /**
   The sizes agree in three styles. In the fourth they agree only without namespaces and language, or, for an
   empty element, when it has no language of its own: the doubling for the end tag takes the declarations with
   it, and the language is counted again.
   */
  lemma SizeIsExact(e: Elem, style: Style, up: Up, uris: seq<string>)
    ensures Slack(e, style, up, uris) == 0 <==>
            style != FULL_NS_LANG || (if Empty(e) then !OwnLang(e, up) else |uris| == 0 && e.lang.NoLang?)
  {
  }

  /** For an element with text and the single namespace DAV: the sizing pass counts the declaration twice. */
  lemma DeclarationCountedTwice(name: string, text: string)
    requires text != ""
    ensures Slack(Elem(name, NS_NONE, NoLang, [], [text], []), FULL_NS_LANG, Root, ["DAV:"]) ==
            |DeclText(0, "DAV:")| == 17
  {
    assert DeclsText(["DAV:"], 1) == DeclText(0, "DAV:");
    assert |Decimal(0)| == 1;
  }

  method TextSize(ts: seq<string>) returns (size: nat)
    ensures size == |Concat(ts)|
  {
    size := 0;
    for i := 0 to |ts|
      invariant size + |Concat(ts[i..])| == |Concat(ts)|
    {
      assert ts[i..][1..] == ts[i + 1..];
      size := size + |ts[i]|;
    }
  }

  method DeclsSize(uris: seq<string>) returns (size: nat)
    requires |uris| < NS_LIMIT
    ensures size == |DeclsText(uris, |uris|)|
  {
    size := 0;
    var i := |uris|;
    while i > 0
      invariant 0 <= i <= |uris| && size + |DeclsText(uris, i)| == |DeclsText(uris, |uris|)|
    {
      i := i - 1;
      NsLenCountsDigits(i);
      size := size + (9 + NsLen(i) + 2 + |uris[i]| + 1);
    }
  }

  method AttrsSize(attrs: seq<Attr>, nsMap: NsMap) returns (size: nat)
    requires forall i :: 0 <= i < |attrs| ==> Numbered(attrs[i].ns, nsMap)
    ensures size == |AttrsText(attrs, nsMap)|
  {
    size := 0;
    for i := 0 to |attrs|
      invariant size + |AttrsText(attrs[i..], nsMap)| == |AttrsText(attrs, nsMap)|
    {
      assert attrs[i..][1..] == attrs[i + 1..];
      var a := attrs[i];
      if a.ns == NS_NONE {
        size := size + (1 + |a.name| + 2 + |a.value| + 1);
      } else {
        var ns := Mapped(a.ns, nsMap);
        NsLenCountsDigits(ns);
        size := size + (3 + NsLen(ns) + 1 + |a.name| + 2 + |a.value| + 1);
      }
    }
  }

  lemma TaggedSize(e: Elem, extra: string, nsMap: NsMap)
    requires AllNumbered(e, nsMap)
    ensures |Tagged(e, extra, nsMap)| == |AttrsText(e.attrs, nsMap)| + |extra| +
            (if Empty(e) then |QName(e.name, e.ns, nsMap)| + 3
              else 2 * |QName(e.name, e.ns, nsMap)| + 5 + |InnerText(e, nsMap)|)
  {
    hide QName, AttrsText, InnerText;
  }

  /** elem_size */
  method ElemSize(e: Elem, style: Style, up: Up, uris: seq<string>, nsMap: NsMap) returns (size: nat)
    requires AllNumbered(e, nsMap) && |uris| < NS_LIMIT
    ensures size == |Text(e, style, up, uris, nsMap)| + Slack(e, style, up, uris)
    decreases e, 1
  {
    TaggedSize(e, if OwnLang(e, up) then LangText(e.lang) else [], nsMap);
    TaggedSize(e, LangText(e.lang) + DeclsText(uris, |uris|), nsMap);
    assert e.lang.Lang? ==> |LangText(e.lang)| == 11 + |e.lang.text| + 1;
    assert |LangText(NoLang)| == 0;
    hide Tagged, InnerText, AttrsText, DeclsText, Decimal, QName, LangText, Empty;
    if style == FULL || style == FULL_NS_LANG {
      size := StartSize(e, style, up, uris, nsMap);
    } else if style == LANG_INNER {
      size := if e.lang.Lang? then |e.lang.text| + 1 else 1;
    } else {
      size := 0;
    }
    var inner := InnerSize(e, nsMap);
    size := size + inner;
  }

  /** The part of the size before the contents. */
  method StartSize(e: Elem, style: Style, up: Up, uris: seq<string>, nsMap: NsMap) returns (size: nat)
    requires AllNumbered(e, nsMap) && |uris| < NS_LIMIT && (style == FULL || style == FULL_NS_LANG)
    ensures size == |AttrsText(e.attrs, nsMap)| + Slack(e, style, up, uris)
                    + (if style == FULL_NS_LANG then |LangText(e.lang)| + |DeclsText(uris, |uris|)|
                       else if OwnLang(e, up) then |LangText(e.lang)| else 0)
                    + (if Empty(e) then |QName(e.name, e.ns, nsMap)| + 3 else 2 * |QName(e.name, e.ns, nsMap)| + 5)
  {
    assert e.lang.Lang? ==> |LangText(e.lang)| == 11 + |e.lang.text| + 1;
    assert |LangText(NoLang)| == 0;
    hide AttrsText, DeclsText, Decimal, QName, LangText;
    size := 0;
    if style == FULL_NS_LANG {
      size := DeclsSize(uris);
      if e.lang.Lang? {
        size := size + (11 + |e.lang.text| + 1);
      }
    }
    size := TagSize(e, size, nsMap);
    var attrsSize := AttrsSize(e.attrs, nsMap);
    size := size + attrsSize;
    if OwnLang(e, up) {
      size := size + (11 + |e.lang.text| + 1);
    }
  }

  /** The tag is added, and all is doubled for the end tag if there is one. */
  method TagSize(e: Elem, before: nat, nsMap: NsMap) returns (size: nat)
    requires AllNumbered(e, nsMap)
    ensures size == if Empty(e) then before + |QName(e.name, e.ns, nsMap)| + 3
                    else 2 * (before + |QName(e.name, e.ns, nsMap)| + 2) + 1
  {
    size := before;
    if e.ns == NS_NONE {
      size := size + (1 + |e.name| + 1);
    } else {
      var ns := Mapped(e.ns, nsMap);
      NsLenCountsDigits(ns);
      size := size + (3 + NsLen(ns) + 1 + |e.name| + 1);
    }
    if Empty(e) {
      size := size + 1;
    } else {
      size := 2 * size + 1;
    }
  }

  /** The text after the start tag, and the children with the texts that follow them. */
  method InnerSize(e: Elem, nsMap: NsMap) returns (size: nat)
    requires AllNumbered(e, nsMap)
    ensures size == |InnerText(e, nsMap)| && (Empty(e) ==> size == 0)
    decreases e, 0
  {
    size := TextSize(e.first);
    for k := 0 to |e.children|
      invariant size + |ContentText(e, k, nsMap)| == |InnerText(e, nsMap)|
    {
      var child := ElemSize(e.children[k].elem, FULL, Under(e.lang), [], nsMap);
      var following := TextSize(e.children[k].following);
      size := size + (child + following);
    }
  }

  // ---------- writing ----------

  /** sprintf of a text that is put together already: its characters and a NUL */
  method Sprint(buf: array<char>, s: nat, text: string) returns (after: nat)
    requires s + |text| < buf.Length
    modifies buf
    ensures after == s + |text| && buf[..after] == old(buf[..s]) + text
  {
    after := Put(buf, s, text);
    ghost var done := buf[..after];
    buf[after] := '\0';
    assert buf[..after] == done;
  }

  method WriteText(buf: array<char>, s: nat, ts: seq<string>) returns (after: nat)
    requires s + |Concat(ts)| <= buf.Length
    modifies buf
    ensures after == s + |Concat(ts)| && buf[..after] == old(buf[..s]) + Concat(ts)
  {
    after := s;
    assert ts[0..] == ts;
    for i := 0 to |ts|
      invariant after + |Concat(ts[i..])| == s + |Concat(ts)|
      invariant buf[..after] + Concat(ts[i..]) == old(buf[..s]) + Concat(ts)
    {
      assert ts[i..][1..] == ts[i + 1..];
      Regroup(buf[..after], ts[i], Concat(ts[i + 1..]));
      after := Put(buf, after, ts[i]);
    }
  }

  lemma Regroup(a: string, b: string, c: string)
    ensures a + (b + c) == (a + b) + c
  {
  }

  method WriteAttrs(buf: array<char>, s: nat, attrs: seq<Attr>, nsMap: NsMap) returns (after: nat)
    requires forall i :: 0 <= i < |attrs| ==> Numbered(attrs[i].ns, nsMap)
    requires s + |AttrsText(attrs, nsMap)| < buf.Length
    modifies buf
    ensures after == s + |AttrsText(attrs, nsMap)| && buf[..after] == old(buf[..s]) + AttrsText(attrs, nsMap)
  {
    hide AttrText;
    after := s;
    assert attrs[0..] == attrs;
    for i := 0 to |attrs|
      invariant after + |AttrsText(attrs[i..], nsMap)| == s + |AttrsText(attrs, nsMap)|
      invariant buf[..after] + AttrsText(attrs[i..], nsMap) == old(buf[..s]) + AttrsText(attrs, nsMap)
    {
      assert attrs[i..][1..] == attrs[i + 1..];
      Regroup(buf[..after], AttrText(attrs[i], nsMap), AttrsText(attrs[i + 1..], nsMap));
      after := Sprint(buf, after, AttrText(attrs[i], nsMap));
    }
  }

  method WriteDecls(buf: array<char>, s: nat, uris: seq<string>) returns (after: nat)
    requires s + |DeclsText(uris, |uris|)| < buf.Length
    modifies buf
    ensures after == s + |DeclsText(uris, |uris|)| && buf[..after] == old(buf[..s]) + DeclsText(uris, |uris|)
  {
    hide DeclText;
    after := s;
    var i := |uris|;
    while i > 0
      invariant 0 <= i <= |uris| && after + |DeclsText(uris, i)| == s + |DeclsText(uris, |uris|)|
      invariant buf[..after] + DeclsText(uris, i) == old(buf[..s]) + DeclsText(uris, |uris|)
    {
      i := i - 1;
      Regroup(buf[..after], DeclText(i, uris[i]), DeclsText(uris, i));
      after := Sprint(buf, after, DeclText(i, uris[i]));
    }
  }

  /** write_elem: the text goes to the buffer from s on; there must be room for it and a NUL. */
  method WriteElem(buf: array<char>, s: nat, e: Elem, style: Style, up: Up, uris: seq<string>, nsMap: NsMap)
    returns (after: nat)
    requires AllNumbered(e, nsMap) && s + |Text(e, style, up, uris, nsMap)| < buf.Length
    modifies buf
    ensures after == s + |Text(e, style, up, uris, nsMap)| &&
            buf[..after] == old(buf[..s]) + Text(e, style, up, uris, nsMap)
    decreases e, 2
  {
    if style == FULL || style == FULL_NS_LANG {
      after := WriteTagged(buf, s, e, style, up, uris, nsMap);
    } else {
      ghost var front := if style != LANG_INNER then [] else (if e.lang.Lang? then e.lang.text else []) + ['\0'];
      assert Text(e, style, up, uris, nsMap) == front + InnerText(e, nsMap) by {
        hide InnerText;
      }
      hide *;
      after := s;
      if style == LANG_INNER {
        if e.lang.Lang? {
          after := Put(buf, after, e.lang.text);
        }
        after := Put(buf, after, ['\0']);
      }
      assert after == s + |front| && buf[..after] == old(buf[..s]) + front;
      Appends(old(buf[..s]), front, InnerText(e, nsMap));
      after := WriteInner(buf, after, e, nsMap);
    }
  }

  method WriteTagged(buf: array<char>, s: nat, e: Elem, style: Style, up: Up, uris: seq<string>, nsMap: NsMap)
    returns (after: nat)
    requires AllNumbered(e, nsMap) && (style == FULL || style == FULL_NS_LANG) &&
             s + |Text(e, style, up, uris, nsMap)| < buf.Length
    modifies buf
    ensures after == s + |Text(e, style, up, uris, nsMap)| &&
            buf[..after] == old(buf[..s]) + Text(e, style, up, uris, nsMap)
    decreases e, 1
  {
    var q := QName(e.name, e.ns, nsMap);
    ghost var start := "<" + q + AttrsText(e.attrs, nsMap) + Extra(e, style, up, uris);
    TextParts(e, style, up, uris, nsMap);
    hide *;
    after := WriteStart(buf, s, e, q, style, up, uris, nsMap);
    if Empty(e) {
      Appends(old(buf[..s]), start, "/>");
      after := Put(buf, after, "/>");
      return;
    }
    Appends(old(buf[..s]), start, ">");
    after := Put(buf, after, ">");
    Appends(old(buf[..s]), start + ">", InnerText(e, nsMap));
    after := WriteInner(buf, after, e, nsMap);
    Appends(old(buf[..s]), start + ">" + InnerText(e, nsMap), "</" + q + ">");
    assert start + ">" + InnerText(e, nsMap) + "</" + q + ">" == start + ">" + InnerText(e, nsMap) + ("</" + q + ">");
    after := Sprint(buf, after, "</" + q + ">");
  }

  lemma TextParts(e: Elem, style: Style, up: Up, uris: seq<string>, nsMap: NsMap)
    requires AllNumbered(e, nsMap) && (style == FULL || style == FULL_NS_LANG)
    ensures Text(e, style, up, uris, nsMap) ==
            var q := QName(e.name, e.ns, nsMap);
            var start := "<" + q + AttrsText(e.attrs, nsMap) + Extra(e, style, up, uris);
            if Empty(e) then start + "/>" else start + ">" + InnerText(e, nsMap) + "</" + q + ">"
  {
    hide QName, AttrsText, InnerText, LangText, DeclsText;
    assert FullText(e, up, nsMap) == Tagged(e, if OwnLang(e, up) then LangText(e.lang) else [], nsMap);
    TaggedParts(e, Extra(e, style, up, uris), nsMap);
  }

  lemma TaggedParts(e: Elem, extra: string, nsMap: NsMap)
    requires AllNumbered(e, nsMap)
    ensures Tagged(e, extra, nsMap) ==
            var q := QName(e.name, e.ns, nsMap);
            var start := "<" + q + AttrsText(e.attrs, nsMap) + extra;
            if Empty(e) then start + "/>" else start + ">" + InnerText(e, nsMap) + "</" + q + ">"
  {
    hide QName, AttrsText, InnerText;
  }

  lemma Appends(a: string, b: string, c: string)
    ensures (a + b) + c == a + (b + c)
  {
  }

  method WriteStart(buf: array<char>, s: nat, e: Elem, q: string, style: Style, up: Up, uris: seq<string>, nsMap: NsMap)
    returns (after: nat)
    requires AllNumbered(e, nsMap)
    requires s + |"<" + q + AttrsText(e.attrs, nsMap) + Extra(e, style, up, uris)| < buf.Length
    modifies buf
    ensures after == s + |"<" + q + AttrsText(e.attrs, nsMap) + Extra(e, style, up, uris)|
    ensures buf[..after] == old(buf[..s]) + ("<" + q + AttrsText(e.attrs, nsMap) + Extra(e, style, up, uris))
  {
    assert forall i :: 0 <= i < |e.attrs| ==> Numbered(e.attrs[i].ns, nsMap);
    hide *;
    after := Sprint(buf, s, "<" + q);
    Appends(old(buf[..s]), "<" + q, AttrsText(e.attrs, nsMap));
    after := WriteAttrs(buf, after, e.attrs, nsMap);
    Appends(old(buf[..s]), "<" + q + AttrsText(e.attrs, nsMap), Extra(e, style, up, uris));
    after := WriteExtra(buf, after, e, style, up, uris);
  }

  /** The language and the namespace declarations of a start tag. */
  method WriteExtra(buf: array<char>, s: nat, e: Elem, style: Style, up: Up, uris: seq<string>) returns (after: nat)
    requires s + |Extra(e, style, up, uris)| < buf.Length
    modifies buf
    ensures after == s + |Extra(e, style, up, uris)| && buf[..after] == old(buf[..s]) + Extra(e, style, up, uris)
  {
    ghost var lang, decls := if style == FULL_NS_LANG || OwnLang(e, up) then LangText(e.lang) else [],
                             if style == FULL_NS_LANG then DeclsText(uris, |uris|) else [];
    ExtraParts(e, style, up, uris);
    assert !e.lang.Lang? ==> lang == [];
    hide *;
    after := s;
    if e.lang.Lang? && (style == FULL_NS_LANG || OwnLang(e, up)) {
      after := Sprint(buf, after, LangText(e.lang));
    }
    assert after == s + |lang| && buf[..after] == old(buf[..s]) + lang;
    Appends(old(buf[..s]), lang, decls);
    if style == FULL_NS_LANG {
      after := WriteDecls(buf, after, uris);
    }
  }

  lemma ExtraParts(e: Elem, style: Style, up: Up, uris: seq<string>)
    ensures Extra(e, style, up, uris) ==
            (if style == FULL_NS_LANG || OwnLang(e, up) then LangText(e.lang) else []) +
            (if style == FULL_NS_LANG then DeclsText(uris, |uris|) else [])
  {
    hide LangText, DeclsText;
  }

  function Extra(e: Elem, style: Style, up: Up, uris: seq<string>): string {
    if style == FULL_NS_LANG then LangText(e.lang) + DeclsText(uris, |uris|)
    else if OwnLang(e, up) then LangText(e.lang) else []
  }

  method WriteInner(buf: array<char>, s: nat, e: Elem, nsMap: NsMap) returns (after: nat)
    requires AllNumbered(e, nsMap) && s + |InnerText(e, nsMap)| < buf.Length
    modifies buf
    ensures after == s + |InnerText(e, nsMap)| && buf[..after] == old(buf[..s]) + InnerText(e, nsMap)
    decreases e, 0
  {
    hide Concat, FullText;
    after := WriteText(buf, s, e.first);
    for k := 0 to |e.children|
      invariant after + |ContentText(e, k, nsMap)| == s + |InnerText(e, nsMap)|
      invariant buf[..after] + ContentText(e, k, nsMap) == old(buf[..s]) + InnerText(e, nsMap)
    {
      ghost var text, following, rest := FullText(e.children[k].elem, Under(e.lang), nsMap),
                                         Concat(e.children[k].following), ContentText(e, k + 1, nsMap);
      ghost var before := buf[..after];
      assert ContentText(e, k, nsMap) == text + following + rest;
      after := WriteElem(buf, after, e.children[k].elem, FULL, Under(e.lang), [], nsMap);
      after := WriteText(buf, after, e.children[k].following);
      Appends(before, text, following);
      Appends(before, text + following, rest);
    }
  }

  /** apr_xml_to_text: the text, then what the sizing counted too much, then a NUL. */
  method ToText(e: Elem, style: Style, up: Up, uris: seq<string>, nsMap: NsMap) returns (buf: array<char>, size: nat)
    requires AllNumbered(e, nsMap) && |uris| < NS_LIMIT
    ensures fresh(buf) && buf.Length == size == |Text(e, style, up, uris, nsMap)| + Slack(e, style, up, uris) + 1
    ensures Text(e, style, up, uris, nsMap) <= buf[..] && buf[size - 1] == '\0'
    ensures Slack(e, style, up, uris) == 0 ==> buf[..] == Text(e, style, up, uris, nsMap) + ['\0']
  {
    hide Text, Slack;
    size := ElemSize(e, style, up, uris, nsMap);
    size := size + 1;
    buf := new char[size];
    var end := WriteElem(buf, 0, e, style, up, uris, nsMap);
    assert buf[..end] == Text(e, style, up, uris, nsMap);
    ghost var text := buf[..end];
    buf[size - 1] := '\0';
    assert buf[..end] == text;
    assert buf[..] == buf[..end] + buf[end..];
  }
}
