/** A reader of serialized elements, defined apart from the writer, and what it gives back. */
module XmlReader {
  import opened Basics
  import opened XmlQuote
  import opened XmlText

  // ---------- reading characters ----------

  datatype Got<T> = Got(value: T, rest: string) | Bad

  ghost predicate Lacks(s: string, stops: string) {
    forall i :: 0 <= i < |s| ==> s[i] !in stops
  }

  /** What stands before the first of the stops, and what is left from there on. */
  function Upto(s: string, stops: string): (r: (string, string))
    ensures |r.0| + |r.1| == |s|
  {
    if |s| == 0 || s[0] in stops then ([], s)
    else
      var (a, b) := Upto(s[1..], stops);
      ([s[0]] + a, b)
  }

  lemma {:induction false} UptoIs(a: string, b: string, stops: string)
    requires Lacks(a, stops) && (b == [] || b[0] in stops)
    ensures Upto(a + b, stops) == (a, b)
    decreases |a|
  {
    if |a| == 0 {
      assert a + b == b;
    } else {
      assert (a + b)[0] == a[0] && (a + b)[1..] == a[1..] + b;
      UptoIs(a[1..], b, stops);
      assert a == [a[0]] + a[1..];
    }
  }

  // ---------- reading names ----------

  /** A name, and the number in front of it if it is written ns, digits, colon, name. */
  function SplitName(q: string): (string, int) {
    if "ns" <= q then
      var (digits, r) := Upto(q[2..], ":");
      if AllDigits(digits) && r != [] then (r[1..], Value(digits)) else (q, NS_NONE)
    else (q, NS_NONE)
  }

  /** What a name in a start tag is for. */
  datatype Use = Language | Declares(n: nat) | Attribute(name: string, ns: int)

  function UseOf(q: string): Use {
    if q == "xml:lang" then Language
    else if "xmlns:ns" <= q && AllDigits(q[8..]) then Declares(Value(q[8..]))
    else var (name, ns) := SplitName(q); Attribute(name, ns)
  }

  // ---------- reading tags ----------

  /** The attributes, languages and declarations of a start tag. */
  datatype Tag = Tag(attrs: seq<Attr>, langs: seq<string>, decls: seq<(nat, string)>)

  type Pair = (string, string)

  function Sorted(pairs: seq<Pair>): Tag {
    if |pairs| == 0 then Tag([], [], [])
    else
      var t, value := Sorted(pairs[1..]), pairs[0].1;
      match UseOf(pairs[0].0)
      case Language => t.(langs := [value] + t.langs)
      case Declares(n) => t.(decls := [(n, value)] + t.decls)
      case Attribute(name, ns) => t.(attrs := [Attr(name, ns, value)] + t.attrs)
  }

  /** Each a space, a name, an equals sign and a value in quotes */
  function ReadPairs(s: string): (r: Got<seq<Pair>>)
    ensures r.Got? ==> |r.rest| <= |s|
    decreases |s|
  {
    if !(" " <= s) then Got([], s)
    else
      var (name, r) := Upto(s[1..], "=");
      if !("=\"" <= r) then Bad
      else
        var (value, r') := Upto(r[2..], "\"");
        if r' == [] then Bad
        else
          match ReadPairs(r'[1..])
          case Got(more, rest) => Got([(name, value)] + more, rest)
          case Bad => Bad
  }

  /** An element as it is read: own languages, texts put together. */
  datatype Read = Read(name: string, ns: int, tag: Tag, content: Content)
  datatype Content = Content(first: string, children: seq<ReadChild>)
  datatype ReadChild = ReadChild(elem: Read, following: string)

  function ReadElem(s: string): (r: Got<Read>)
    ensures r.Got? ==> |r.rest| < |s|
    decreases |s|, 0
  {
    if !("<" <= s) then Bad
    else
      var (q, r) := Upto(s[1..], " />");
      match ReadPairs(r)
      case Got(pairs, after) => ReadBody(q, Sorted(pairs), after)
      case Bad => Bad
  }

  /** The rest of an element named q, behind the names and values of its start tag */
  function ReadBody(q: string, tag: Tag, s: string): (r: Got<Read>)
    ensures r.Got? ==> |r.rest| < |s|
    decreases |s|, 2
  {
    var (name, ns) := SplitName(q);
    if "/>" <= s then Got(Read(name, ns, tag, Content([], [])), s[2..])
    else if !(">" <= s) then Bad
    else
      match ReadContent(s[1..])
      case Bad => Bad
      case Got(content, end) =>
        if "</" + q + ">" <= end then Got(Read(name, ns, tag, content), end[|q| + 3..]) else Bad
  }

  /** Text and elements up to an end tag or the end of all */
  function ReadContent(s: string): (r: Got<Content>)
    ensures r.Got? ==> |r.rest| <= |s|
    decreases |s|, 1
  {
    var (text, r) := Upto(s, "<");
    if r == [] || "</" <= r then Got(Content(text, []), r)
    else
      match ReadElem(r)
      case Bad => Bad
      case Got(elem, after) =>
        match ReadContent(after)
        case Bad => Bad
        case Got(more, rest) => Got(Content(text, [ReadChild(elem, more.first)] + more.children), rest)
  }

  // ---------- what shall be read ----------

  function Number(ns: int, nsMap: NsMap): int
    requires Numbered(ns, nsMap)
  {
    if ns == NS_NONE then NS_NONE else Mapped(ns, nsMap)
  }

  /** The attributes as they are, with the numbers that are written */
  function Renumbered(attrs: seq<Attr>, nsMap: NsMap): seq<Attr>
    requires forall i :: 0 <= i < |attrs| ==> Numbered(attrs[i].ns, nsMap)
  {
    seq(|attrs|, i requires 0 <= i < |attrs| => attrs[i].(ns := Number(attrs[i].ns, nsMap)))
  }

  function LangsOf(lang: Lang): seq<string> {
    if lang.Lang? then [lang.text] else []
  }

  predicate SameLang(a: Lang, b: Lang) {
    a.Lang? && b.Lang? && a.id == b.id
  }

  /** The languages of an element's own, which the parent does not have already */
  function OwnLangs(e: Elem, up: Up): seq<string> {
    if up.Under? && SameLang(e.lang, up.lang) then [] else LangsOf(e.lang)
  }

  /** e as it shall be read, with these languages and declarations in its start tag */
  function Image(e: Elem, langs: seq<string>, decls: seq<(nat, string)>, nsMap: NsMap): Read
    requires AllNumbered(e, nsMap)
    decreases e, 1
  {
    Read(e.name, Number(e.ns, nsMap), Tag(Renumbered(e.attrs, nsMap), langs, decls), ContentImage(e, nsMap))
  }

  function ContentImage(e: Elem, nsMap: NsMap): Content
    requires AllNumbered(e, nsMap)
    decreases e, 0
  {
    Content(Concat(e.first), seq(|e.children|, i requires 0 <= i < |e.children| =>
      ReadChild(Image(e.children[i].elem, OwnLangs(e.children[i].elem, Under(e.lang)), [], nsMap),
                Concat(e.children[i].following))))
  }

  /** Every namespace with its number, the last one first */
  function Declarations(uris: seq<string>): seq<(nat, string)> {
    seq(|uris|, i requires 0 <= i < |uris| => (|uris| - 1 - i, uris[|uris| - 1 - i]))
  }

  // ---------- trees that can be read ----------

  /** A name without delimiters, which does not look like one with a number */
  ghost predicate CleanName(name: string, ns: int) {
    name != [] && Lacks(name, " =/>") && (ns == NS_NONE ==> SplitName(name).1 == NS_NONE)
  }

  ghost predicate CleanAttr(a: Attr) {
    && CleanName(a.name, a.ns) && Lacks(a.value, "\"")
    && (a.ns == NS_NONE ==> UseOf(a.name).Attribute?)
  }

  ghost predicate CleanTexts(ts: seq<string>) {
    forall i :: 0 <= i < |ts| ==> Lacks(ts[i], "<")
  }

  ghost predicate CleanLang(lang: Lang) {
    lang.Lang? ==> Lacks(lang.text, "\"")
  }

  /** Names hold no delimiter, values and languages no quote, and texts no tag. */
  ghost predicate Clean(e: Elem) {
    && CleanName(e.name, e.ns) && CleanLang(e.lang) && CleanTexts(e.first)
    && (forall i :: 0 <= i < |e.attrs| ==> CleanAttr(e.attrs[i]))
    && (forall i :: 0 <= i < |e.children| ==> Clean(e.children[i].elem) && CleanTexts(e.children[i].following))
  }

  // ---------- start tags are read back ----------

  function PairsText(pairs: seq<Pair>): string {
    if |pairs| == 0 then [] else " " + pairs[0].0 + "=\"" + pairs[0].1 + "\"" + PairsText(pairs[1..])
  }

  ghost predicate CleanPairs(pairs: seq<Pair>) {
    forall i :: 0 <= i < |pairs| ==> Lacks(pairs[i].0, "=") && Lacks(pairs[i].1, "\"")
  }

  lemma ReadsPair(name: string, value: string, more: string)
    requires Lacks(name, "=") && Lacks(value, "\"")
    ensures ReadPairs(" " + name + "=\"" + value + "\"" + more) ==
            match ReadPairs(more)
            case Got(pairs, rest) => Got([(name, value)] + pairs, rest)
            case Bad => Bad
  {
    var s := " " + name + "=\"" + value + "\"" + more;
    var r, r' := "=\"" + (value + ("\"" + more)), "\"" + more;
    UptoIs(name, r, "=");
    UptoIs(value, r', "\"");
    hide Upto, Lacks;
    PairNested(name, value, more);
    assert s[1..] == name + r && r[2..] == value + r' && r'[1..] == more;
  }

  lemma PairNested(name: string, value: string, more: string)
    ensures " " + name + "=\"" + value + "\"" + more == " " + (name + ("=\"" + (value + ("\"" + more))))
  {
  }

  lemma {:induction false} ReadsPairs(pairs: seq<Pair>, rest: string)
    requires CleanPairs(pairs) && (rest == [] || rest[0] != ' ')
    ensures ReadPairs(PairsText(pairs) + rest) == Got(pairs, rest)
    decreases |pairs|
  {
    if |pairs| == 0 {
      assert PairsText(pairs) + rest == rest;
    } else {
      var (name, value) := pairs[0];
      var more := PairsText(pairs[1..]);
      ReadsPairs(pairs[1..], rest);
      ReadsPair(name, value, more + rest);
      hide ReadPairs, Lacks;
      Appends(" " + name + "=\"" + value + "\"", more, rest);
      assert pairs == [(name, value)] + pairs[1..];
    }
  }

  lemma {:induction false} PairsConcat(a: seq<Pair>, b: seq<Pair>)
    ensures PairsText(a + b) == PairsText(a) + PairsText(b)
    decreases |a|
  {
    if |a| == 0 {
      assert a + b == b;
    } else {
      assert (a + b)[0] == a[0] && (a + b)[1..] == a[1..] + b;
      PairsConcat(a[1..], b);
      var one := " " + a[0].0 + "=\"" + a[0].1 + "\"";
      assert one + (PairsText(a[1..]) + PairsText(b)) == (one + PairsText(a[1..])) + PairsText(b);
    }
  }

  function PairsOf(attrs: seq<Attr>, nsMap: NsMap): (r: seq<Pair>)
    requires forall i :: 0 <= i < |attrs| ==> Numbered(attrs[i].ns, nsMap)
    ensures |r| == |attrs|
    ensures forall i :: 0 <= i < |r| ==> r[i] == (QName(attrs[i].name, attrs[i].ns, nsMap), attrs[i].value)
  {
    seq(|attrs|, i requires 0 <= i < |attrs| => (QName(attrs[i].name, attrs[i].ns, nsMap), attrs[i].value))
  }

  function LangPairs(langs: seq<string>): (r: seq<Pair>)
    ensures |r| == |langs| && forall i :: 0 <= i < |r| ==> r[i] == ("xml:lang", langs[i])
  {
    seq(|langs|, i requires 0 <= i < |langs| => ("xml:lang", langs[i]))
  }

  function DeclPairs(decls: seq<(nat, string)>): (r: seq<Pair>)
    ensures |r| == |decls| && forall i :: 0 <= i < |r| ==> r[i] == ("xmlns:ns" + Decimal(decls[i].0), decls[i].1)
  {
    seq(|decls|, i requires 0 <= i < |decls| => ("xmlns:ns" + Decimal(decls[i].0), decls[i].1))
  }

  lemma {:induction false} AttrsAsPairs(attrs: seq<Attr>, nsMap: NsMap)
    requires forall i :: 0 <= i < |attrs| ==> Numbered(attrs[i].ns, nsMap)
    ensures AttrsText(attrs, nsMap) == PairsText(PairsOf(attrs, nsMap))
  {
    hide QName;
    if |attrs| > 0 {
      AttrsAsPairs(attrs[1..], nsMap);
      assert PairsOf(attrs, nsMap)[1..] == PairsOf(attrs[1..], nsMap);
    }
  }

  lemma {:induction false} DeclsAsPairs(uris: seq<string>, k: nat)
    requires k <= |uris|
    ensures DeclsText(uris, k) == PairsText(DeclPairs(Declarations(uris[..k])))
  {
    hide Decimal;
    if k > 0 {
      DeclsAsPairs(uris, k - 1);
      hide PairsText, DeclsText;
      var pairs := DeclPairs(Declarations(uris[..k]));
      assert pairs[0] == ("xmlns:ns" + Decimal(k - 1), uris[k - 1]);
      assert pairs[1..] == DeclPairs(Declarations(uris[..k - 1]));
      PairsHead(pairs);
      DeclsHead(uris, k);
    }
  }

  lemma PairsHead(pairs: seq<Pair>)
    requires |pairs| > 0
    ensures PairsText(pairs) == " " + pairs[0].0 + "=\"" + pairs[0].1 + "\"" + PairsText(pairs[1..])
  {
  }

  lemma DeclsHead(uris: seq<string>, k: nat)
    requires 0 < k <= |uris|
    ensures DeclsText(uris, k) ==
            " " + ("xmlns:ns" + Decimal(k - 1)) + "=\"" + uris[k - 1] + "\"" + DeclsText(uris, k - 1)
  {
    hide Decimal;
    Appends(" ", "xmlns:ns", Decimal(k - 1));
  }

  lemma LangAsPairs(lang: Lang)
    ensures LangText(lang) == PairsText(LangPairs(LangsOf(lang)))
  {
    if lang.Lang? {
      var pairs := LangPairs(LangsOf(lang));
      assert pairs[1..] == [] && PairsText(pairs[1..]) == [];
    }
  }

  // ---------- names are read back ----------

  lemma SplitsNumber(n: nat, name: string)
    ensures SplitName("ns" + Decimal(n) + ":" + name) == (name, n)
  {
    var d, r, q := Decimal(n), ":" + name, "ns" + Decimal(n) + ":" + name;
    ValueOfDecimal(n);
    NoColon(d);
    UptoIs(d, r, ":");
    hide Decimal, Upto, Value, AllDigits, Lacks;
    assert q[2..] == d + r && "ns" <= q && r[1..] == name;
  }

  lemma NoColon(d: string)
    requires AllDigits(d)
    ensures Lacks(d, ":") && Lacks(d, " =/>")
  {
  }

  /** A written name is split into the name and its number. */
  lemma SplitsName(name: string, ns: int, nsMap: NsMap)
    requires Numbered(ns, nsMap) && CleanName(name, ns)
    ensures SplitName(QName(name, ns, nsMap)) == (name, Number(ns, nsMap))
    ensures QName(name, ns, nsMap) != [] && Lacks(QName(name, ns, nsMap), " =/>")
    ensures ns != NS_NONE ==> QName(name, ns, nsMap)[0] == 'n'
  {
    if ns != NS_NONE {
      var n := Mapped(ns, nsMap);
      SplitsNumber(n, name);
      ValueOfDecimal(n);
      NoColon(Decimal(n));
      hide Decimal, SplitName, AllDigits, Value;
    }
  }

  lemma UsesName(a: Attr, nsMap: NsMap)
    requires Numbered(a.ns, nsMap) && CleanAttr(a)
    ensures UseOf(QName(a.name, a.ns, nsMap)) == Attribute(a.name, Number(a.ns, nsMap))
  {
    SplitsName(a.name, a.ns, nsMap);
    hide SplitName, Value, Upto;
  }

  lemma {:induction false} SortsAttrs(attrs: seq<Attr>, more: seq<Pair>, nsMap: NsMap)
    requires forall i :: 0 <= i < |attrs| ==> Numbered(attrs[i].ns, nsMap) && CleanAttr(attrs[i])
    ensures var t := Sorted(more);
            Sorted(PairsOf(attrs, nsMap) + more) == t.(attrs := Renumbered(attrs, nsMap) + t.attrs)
    decreases |attrs|
  {
    if |attrs| == 0 {
      assert PairsOf(attrs, nsMap) + more == more && Renumbered(attrs, nsMap) == [];
    } else {
      var a := attrs[0];
      UsesName(a, nsMap);
      hide *;
      SortsAttrs(attrs[1..], more, nsMap);
      FirstAttr(attrs, nsMap);
      var pairs, renumbered, rest := PairsOf(attrs[1..], nsMap), Renumbered(attrs[1..], nsMap), Sorted(more).attrs;
      var pair, first := (QName(a.name, a.ns, nsMap), a.value), a.(ns := Number(a.ns, nsMap));
      SortsAttr(pair.0, first, pairs + more);
      assert [pair] + pairs + more == [pair] + (pairs + more);
      assert [first] + renumbered + rest == [first] + (renumbered + rest);
    }
  }

  lemma FirstAttr(attrs: seq<Attr>, nsMap: NsMap)
    requires |attrs| > 0 && forall i :: 0 <= i < |attrs| ==> Numbered(attrs[i].ns, nsMap)
    ensures var a := attrs[0];
            && PairsOf(attrs, nsMap) == [(QName(a.name, a.ns, nsMap), a.value)] + PairsOf(attrs[1..], nsMap)
            && Renumbered(attrs, nsMap) == [a.(ns := Number(a.ns, nsMap))] + Renumbered(attrs[1..], nsMap)
  {
    hide QName, Number, Numbered;
  }

  lemma SortsAttr(q: string, a: Attr, more: seq<Pair>)
    requires UseOf(q) == Attribute(a.name, a.ns)
    ensures var t := Sorted(more); Sorted([(q, a.value)] + more) == t.(attrs := [a] + t.attrs)
  {
    hide UseOf;
    assert ([(q, a.value)] + more)[1..] == more;
  }

  lemma {:induction false} SortsDecls(decls: seq<(nat, string)>)
    ensures Sorted(DeclPairs(decls)) == Tag([], [], decls)
    decreases |decls|
  {
    if |decls| > 0 {
      var pairs, q := DeclPairs(decls), "xmlns:ns" + Decimal(decls[0].0);
      ValueOfDecimal(decls[0].0);
      SortsDecls(decls[1..]);
      assert pairs[1..] == DeclPairs(decls[1..]);
      assert q[8..] == Decimal(decls[0].0) && q[3] == 'n';
      assert UseOf(q) == Declares(decls[0].0);
      assert decls == [decls[0]] + decls[1..];
    }
  }

  lemma SortsLang(langs: seq<string>, decls: seq<(nat, string)>)
    requires |langs| <= 1
    ensures Sorted(LangPairs(langs) + DeclPairs(decls)) == Tag([], langs, decls)
  {
    SortsDecls(decls);
    var pairs, more := LangPairs(langs), DeclPairs(decls);
    if |langs| == 0 {
      assert pairs + more == more;
    } else {
      assert (pairs + more)[1..] == more;
    }
  }

  // ---------- elements are read back ----------

  /** What a start tag has after the attributes */
  function ExtraPairs(langs: seq<string>, decls: seq<(nat, string)>): seq<Pair> {
    LangPairs(langs) + DeclPairs(decls)
  }

  lemma CleanTag(attrs: seq<Attr>, langs: seq<string>, decls: seq<(nat, string)>, nsMap: NsMap)
    requires forall i :: 0 <= i < |attrs| ==> Numbered(attrs[i].ns, nsMap) && CleanAttr(attrs[i])
    requires forall i :: 0 <= i < |langs| ==> Lacks(langs[i], "\"")
    requires forall i :: 0 <= i < |decls| ==> Lacks(decls[i].1, "\"")
    ensures CleanPairs(PairsOf(attrs, nsMap) + ExtraPairs(langs, decls))
  {
    forall i | 0 <= i < |attrs| ensures Lacks(QName(attrs[i].name, attrs[i].ns, nsMap), "=") {
      SplitsName(attrs[i].name, attrs[i].ns, nsMap);
    }
    forall i | 0 <= i < |decls| ensures Lacks("xmlns:ns" + Decimal(decls[i].0), "=") {
      ValueOfDecimal(decls[i].0);
    }
  }

  /** The pairs of a start tag are read back and sorted into attributes, languages and declarations. */
  lemma ReadsTag(attrs: seq<Attr>, langs: seq<string>, decls: seq<(nat, string)>, nsMap: NsMap, rest: string)
    requires forall i :: 0 <= i < |attrs| ==> Numbered(attrs[i].ns, nsMap) && CleanAttr(attrs[i])
    requires forall i :: 0 <= i < |langs| ==> Lacks(langs[i], "\"")
    requires forall i :: 0 <= i < |decls| ==> Lacks(decls[i].1, "\"")
    requires |langs| <= 1 && (rest == [] || rest[0] != ' ')
    ensures var r := ReadPairs(AttrsText(attrs, nsMap) + PairsText(ExtraPairs(langs, decls)) + rest);
            r.Got? && r.rest == rest && Sorted(r.value) == Tag(Renumbered(attrs, nsMap), langs, decls)
  {
    var a, b := PairsOf(attrs, nsMap), ExtraPairs(langs, decls);
    CleanTag(attrs, langs, decls, nsMap);
    AttrsAsPairs(attrs, nsMap);
    PairsConcat(a, b);
    ReadsPairs(a + b, rest);
    SortsLang(langs, decls);
    SortsAttrs(attrs, b, nsMap);
  }

  /** An element is read back when its start tag and its contents are. */
  lemma ReadsTagged(e: Elem, langs: seq<string>, decls: seq<(nat, string)>, nsMap: NsMap, rest: string)
    requires AllNumbered(e, nsMap) && Clean(e) && |langs| <= 1
    requires forall i :: 0 <= i < |langs| ==> Lacks(langs[i], "\"")
    requires forall i :: 0 <= i < |decls| ==> Lacks(decls[i].1, "\"")
    ensures ReadElem(Tagged(e, PairsText(ExtraPairs(langs, decls)), nsMap) + rest) ==
            Got(Image(e, langs, decls, nsMap), rest)
    decreases e, 1
  {
    var q, extra := QName(e.name, e.ns, nsMap), PairsText(ExtraPairs(langs, decls));
    var tag, inner, end := AttrsText(e.attrs, nsMap) + extra, InnerText(e, nsMap), "</" + q + ">" + rest;
    SplitsName(e.name, e.ns, nsMap);
    TagStarts(e.attrs, langs, decls, nsMap);
    CleanConcat(e.first);
    assert inner == Concat(e.first) + ContentText(e, 0, nsMap);
    assert forall i :: 0 <= i < |e.attrs| ==> Numbered(e.attrs[i].ns, nsMap) && CleanAttr(e.attrs[i]);
    assert Empty(e) ==> ContentImage(e, nsMap) == Content([], []);
    assert Image(e, langs, decls, nsMap) ==
           Read(e.name, Number(e.ns, nsMap), Tag(Renumbered(e.attrs, nsMap), langs, decls), ContentImage(e, nsMap));
    hide *;
    TaggedNested(e, extra, nsMap, rest);
    if Empty(e) {
      assert ("/>" + rest)[0] == '/';
      ReadsTag(e.attrs, langs, decls, nsMap, "/>" + rest);
      ReadsStart(q, tag, "/>" + rest);
      ReadsEmptyEnd(q, Sorted(ReadPairs(tag + ("/>" + rest)).value), rest);
    } else {
      assert (">" + (inner + end))[0] == '>';
      ReadsTag(e.attrs, langs, decls, nsMap, ">" + (inner + end));
      ReadsContent(e, 0, Concat(e.first), nsMap, end);
      ReadsStart(q, tag, ">" + (inner + end));
      ReadsEnd(q, Sorted(ReadPairs(tag + (">" + (inner + end))).value), inner, rest);
    }
  }

  /** The text of an element, seen from its front */
  lemma TaggedNested(e: Elem, extra: string, nsMap: NsMap, rest: string)
    requires AllNumbered(e, nsMap)
    ensures var q := QName(e.name, e.ns, nsMap);
            Tagged(e, extra, nsMap) + rest ==
            "<" + (q + (AttrsText(e.attrs, nsMap) + extra +
                        if Empty(e) then "/>" + rest else ">" + (InnerText(e, nsMap) + ("</" + q + ">" + rest))))
  {
    var q, a := QName(e.name, e.ns, nsMap), AttrsText(e.attrs, nsMap);
    TaggedParts(e, extra, nsMap);
    hide QName, AttrsText, Tagged, InnerText, Empty;
    if Empty(e) {
      TagNested(q, a, extra, "/>", rest);
    } else {
      TagNested(q, a, extra, ">", InnerText(e, nsMap) + ("</" + q + ">" + rest));
      ContentNested("<" + q + a + extra + ">", InnerText(e, nsMap), q, rest);
    }
  }

  lemma TagStarts(attrs: seq<Attr>, langs: seq<string>, decls: seq<(nat, string)>, nsMap: NsMap)
    requires forall i :: 0 <= i < |attrs| ==> Numbered(attrs[i].ns, nsMap)
    ensures var tag := AttrsText(attrs, nsMap) + PairsText(ExtraPairs(langs, decls)); tag == [] || tag[0] == ' '
  {
    hide QName, ExtraPairs;
  }

  lemma TagNested(q: string, a: string, b: string, c: string, d: string)
    ensures "<" + q + a + b + c + d == "<" + (q + (a + b + (c + d)))
  {
  }

  lemma ContentNested(start: string, inner: string, q: string, rest: string)
    ensures start + inner + "</" + q + ">" + rest == start + (inner + ("</" + q + ">" + rest))
  {
  }

  lemma ReadsStart(q: string, tag: string, s: string)
    requires Lacks(q, " =/>") && s != [] && s[0] in "/>" && (tag == [] || tag[0] == ' ')
    requires ReadPairs(tag + s).Got? && ReadPairs(tag + s).rest == s
    ensures ReadElem("<" + (q + (tag + s))) == ReadBody(q, Sorted(ReadPairs(tag + s).value), s)
  {
    UptoIs(q, tag + s, " />");
    hide ReadBody, ReadPairs, Upto, Lacks, Sorted;
    assert ("<" + (q + (tag + s)))[1..] == q + (tag + s);
  }

  lemma ReadsEmptyEnd(q: string, tag: Tag, rest: string)
    ensures var (name, ns) := SplitName(q);
            ReadBody(q, tag, "/>" + rest) == Got(Read(name, ns, tag, Content([], [])), rest)
  {
    assert ("/>" + rest)[2..] == rest;
  }

  lemma ReadsEnd(q: string, tag: Tag, inner: string, rest: string)
    requires var end := "</" + q + ">" + rest;
             ReadContent(inner + end).Got? && ReadContent(inner + end).rest == end
    ensures ReadBody(q, tag, ">" + (inner + ("</" + q + ">" + rest))) ==
            var (name, ns) := SplitName(q);
            Got(Read(name, ns, tag, ReadContent(inner + ("</" + q + ">" + rest)).value), rest)
  {
    hide ReadContent, SplitName;
    var end := "</" + q + ">" + rest;
    assert (">" + (inner + end))[1..] == inner + end && (">" + (inner + end))[0] == '>';
    assert end[|q| + 3..] == rest && "</" + q + ">" <= end;
  }

  /** Contents are read back: a text, and the children from k on with the texts that follow them. */
  lemma ReadsContent(e: Elem, k: nat, text: string, nsMap: NsMap, end: string)
    requires AllNumbered(e, nsMap) && Clean(e) && k <= |e.children| && Lacks(text, "<")
    requires end == [] || "</" <= end
    ensures ReadContent(text + ContentText(e, k, nsMap) + end) ==
            Got(Content(text, ContentImage(e, nsMap).children[k..]), end)
    decreases e, 0, |e.children| - k
  {
    hide *;
    var children := ContentImage(e, nsMap).children;
    ContentEnd(e, nsMap);
    if k == |e.children| {
      ReadsText(text, end);
      assert children[k..] == [];
    } else {
      ContentAt(e, k, nsMap);
      var c := e.children[k];
      var following, more := Concat(c.following), ContentText(e, k + 1, nsMap);
      var child := FullText(c.elem, Under(e.lang), nsMap);
      var after := following + more + end;
      ReadsFull(c.elem, Under(e.lang), nsMap, after);
      ReadsContent(e, k + 1, following, nsMap, end);
      FullStarts(c.elem, Under(e.lang), nsMap, after);
      ReadsChild(text, child, after);
      ChildNested(text, child, following, more, end);
      assert children[k..] == [children[k]] + children[k + 1..];
    }
  }

  lemma ContentEnd(e: Elem, nsMap: NsMap)
    requires AllNumbered(e, nsMap)
    ensures ContentText(e, |e.children|, nsMap) == [] && |ContentImage(e, nsMap).children| == |e.children|
  {
  }

  lemma ContentAt(e: Elem, k: nat, nsMap: NsMap)
    requires AllNumbered(e, nsMap) && Clean(e) && k < |e.children|
    ensures var c := e.children[k];
            && AllNumbered(c.elem, nsMap) && Clean(c.elem) && Lacks(Concat(c.following), "<")
            && ContentText(e, k, nsMap) ==
               FullText(c.elem, Under(e.lang), nsMap) + Concat(c.following) + ContentText(e, k + 1, nsMap)
            && ContentImage(e, nsMap).children[k] ==
               ReadChild(Image(c.elem, OwnLangs(c.elem, Under(e.lang)), [], nsMap), Concat(c.following))
  {
    CleanConcat(e.children[k].following);
    hide FullText, Concat, Lacks, CleanName, CleanLang, CleanAttr;
  }

  lemma ReadsText(text: string, end: string)
    requires Lacks(text, "<") && (end == [] || "</" <= end)
    ensures ReadContent(text + [] + end) == Got(Content(text, []), end)
  {
    UptoIs(text, end, "<");
    assert text + [] == text;
  }

  lemma ReadsChild(text: string, child: string, after: string)
    requires var s := child + after; |s| > 1 && s[0] == '<' && s[1] != '/'
    requires Lacks(text, "<") && ReadElem(child + after).Got? && ReadElem(child + after).rest == after
    requires ReadContent(after).Got?
    ensures var more := ReadContent(after).value;
            ReadContent(text + (child + after)) ==
            Got(Content(text, [ReadChild(ReadElem(child + after).value, more.first)] + more.children),
                ReadContent(after).rest)
  {
    UptoIs(text, child + after, "<");
    hide Upto, Lacks, ReadElem;
  }

  lemma ChildNested(text: string, child: string, following: string, more: string, end: string)
    ensures text + (child + following + more) + end == text + (child + (following + more + end))
  {
  }

  lemma {:induction false} CleanConcat(ts: seq<string>)
    requires CleanTexts(ts)
    ensures Lacks(Concat(ts), "<")
  {
    if |ts| > 0 {
      CleanConcat(ts[1..]);
    }
  }

  /** FULL: an element is read back with its name, numbers, attributes, own language, texts and children. */
  lemma ReadsFull(e: Elem, up: Up, nsMap: NsMap, rest: string)
    requires AllNumbered(e, nsMap) && Clean(e)
    ensures ReadElem(FullText(e, up, nsMap) + rest) ==
            Got(Image(e, OwnLangs(e, up), [], nsMap), rest)
    decreases e, 2
  {
    var langs := OwnLangs(e, up);
    LangAsPairs(e.lang);
    assert ExtraPairs(langs, []) == LangPairs(langs);
    ReadsTagged(e, langs, [], nsMap, rest);
  }

  lemma FullStarts(e: Elem, up: Up, nsMap: NsMap, rest: string)
    requires AllNumbered(e, nsMap) && Clean(e)
    ensures var s := FullText(e, up, nsMap) + rest; |s| > 1 && s[0] == '<' && s[1] != '/'
  {
    SplitsName(e.name, e.ns, nsMap);
  }

  /**
   The whole text is read back, in every style, with the language in front and the declarations where they are
   written.
   */
  lemma TextIsReadBack(e: Elem, style: Style, up: Up, uris: seq<string>, nsMap: NsMap)
    requires AllNumbered(e, nsMap) && Clean(e)
    requires style == FULL_NS_LANG ==> forall i :: 0 <= i < |uris| ==> Lacks(uris[i], "\"")
    requires style == LANG_INNER && e.lang.Lang? ==> Lacks(e.lang.text, "\0")
    ensures var text := Text(e, style, up, uris, nsMap);
            match style
            case FULL => ReadElem(text) == Got(Image(e, OwnLangs(e, up), [], nsMap), [])
            case FULL_NS_LANG => ReadElem(text) == Got(Image(e, LangsOf(e.lang), Declarations(uris), nsMap), [])
            case INNER => ReadContent(text) == Got(ContentImage(e, nsMap), [])
            case LANG_INNER =>
              var (lang, r) := Upto(text, "\0");
              && lang == (if e.lang.Lang? then e.lang.text else []) && r != []
              && ReadContent(r[1..]) == Got(ContentImage(e, nsMap), [])
  {
    hide ReadElem, ReadContent, FullText, Tagged, Image, ContentImage, LangText, DeclsText, PairsText, Declarations;
    var text := Text(e, style, up, uris, nsMap);
    assert text + [] == text;
    match style
    case FULL => ReadsFull(e, up, nsMap, []);
    case FULL_NS_LANG =>
      DeclaredAsPairs(e.lang, uris);
      ReadsTagged(e, LangsOf(e.lang), Declarations(uris), nsMap, []);
    case INNER => ReadsInner(e, nsMap);
    case LANG_INNER =>
      ReadsInner(e, nsMap);
      var lang, inner := if e.lang.Lang? then e.lang.text else [], InnerText(e, nsMap);
      assert text == lang + (['\0'] + inner) && (['\0'] + inner)[1..] == inner;
      UptoIs(lang, ['\0'] + inner, "\0");
  }

  lemma DeclaredAsPairs(lang: Lang, uris: seq<string>)
    requires forall i :: 0 <= i < |uris| ==> Lacks(uris[i], "\"")
    ensures var decls := Declarations(uris); forall i :: 0 <= i < |decls| ==> Lacks(decls[i].1, "\"")
    ensures LangText(lang) + DeclsText(uris, |uris|) == PairsText(ExtraPairs(LangsOf(lang), Declarations(uris)))
  {
    LangAsPairs(lang);
    assert uris[..|uris|] == uris;
    DeclsAsPairs(uris, |uris|);
    PairsConcat(LangPairs(LangsOf(lang)), DeclPairs(Declarations(uris)));
  }

  lemma ReadsInner(e: Elem, nsMap: NsMap)
    requires AllNumbered(e, nsMap) && Clean(e)
    ensures ReadContent(InnerText(e, nsMap)) == Got(ContentImage(e, nsMap), [])
  {
    CleanConcat(e.first);
    ReadsContent(e, 0, Concat(e.first), nsMap, []);
    assert InnerText(e, nsMap) == Concat(e.first) + ContentText(e, 0, nsMap) + [];
  }

  // ---------- languages ----------

  /** A language has one text, and is handed down to the children. */
  ghost predicate Inherits(e: Elem, up: Up) {
    && (up.Under? && up.lang.Lang? ==> e.lang.Lang? && (e.lang.id == up.lang.id ==> e.lang.text == up.lang.text))
    && forall i :: 0 <= i < |e.children| ==> Inherits(e.children[i].elem, Under(e.lang))
  }

  /** Where it has no language of its own, r is in that of its parent: all in all in the languages of e. */
  ghost predicate Speaks(r: Read, e: Elem, inherited: seq<string>) {
    var langs := if r.tag.langs == [] then inherited else r.tag.langs;
    && langs == LangsOf(e.lang) && |r.content.children| == |e.children|
    && forall i :: 0 <= i < |e.children| ==> Speaks(r.content.children[i].elem, e.children[i].elem, langs)
  }

  /** The languages that are written tell those of all elements. */
  lemma {:induction false} LanguagesAreKept(e: Elem, up: Up, decls: seq<(nat, string)>, nsMap: NsMap)
    requires AllNumbered(e, nsMap) && Inherits(e, up)
    ensures Speaks(Image(e, OwnLangs(e, up), decls, nsMap), e, if up.Under? then LangsOf(up.lang) else [])
  {
    forall i | 0 <= i < |e.children|
      ensures Speaks(Image(e, OwnLangs(e, up), decls, nsMap).content.children[i].elem, e.children[i].elem,
              LangsOf(e.lang))
    {
      LanguagesAreKept(e.children[i].elem, Under(e.lang), [], nsMap);
    }
  }

  // ---------- quoted elements ----------

  function UnquotedAttrs(attrs: seq<Attr>): seq<Attr> {
    seq(|attrs|, i requires 0 <= i < |attrs| => attrs[i].(value := Unquoted(attrs[i].value)))
  }

  /** What is read, with all references in values and texts replaced by what they stand for */
  function Plain(r: Read): Read
    decreases r, 1
  {
    r.(tag := r.tag.(attrs := UnquotedAttrs(r.tag.attrs)), content := PlainContent(r.content))
  }

  function PlainContent(c: Content): Content
    decreases c, 0
  {
    Content(Unquoted(c.first), seq(|c.children|, i requires 0 <= i < |c.children| =>
      ReadChild(Plain(c.children[i].elem), Unquoted(c.children[i].following))))
  }

  /** Names hold no delimiter, and languages no quote; nothing is asked of values and texts. */
  ghost predicate CleanNames(e: Elem) {
    && CleanName(e.name, e.ns) && CleanLang(e.lang)
    && (forall i :: 0 <= i < |e.attrs| ==> CleanAttr(e.attrs[i].(value := [])))
    && (forall i :: 0 <= i < |e.children| ==> CleanNames(e.children[i].elem))
  }

  lemma {:induction false} QuotedConcats(ts: seq<string>)
    ensures CleanTexts(QuotedTexts(ts))
    ensures Concat(QuotedTexts(ts)) == Quoted(Concat(ts), false)
  {
    if |ts| > 0 {
      QuotedConcats(ts[1..]);
      QuotedHasNoMarkup(ts[0], false);
      QuotedConcat(ts[0], Concat(ts[1..]), false);
      assert QuotedTexts(ts)[1..] == QuotedTexts(ts[1..]);
      assert QuotedTexts(ts) == [Quoted(ts[0], false)] + QuotedTexts(ts[1..]);
    }
  }

  lemma {:induction false} QuotedIsClean(e: Elem, nsMap: NsMap)
    requires AllNumbered(e, nsMap) && CleanNames(e)
    ensures AllNumbered(QuotedElem(e), nsMap) && Clean(QuotedElem(e))
  {
    QuotedConcats(e.first);
    forall i | 0 <= i < |e.attrs| ensures CleanAttr(QuotedElem(e).attrs[i]) {
      QuotedHasNoMarkup(e.attrs[i].value, true);
      assert CleanAttr(e.attrs[i].(value := []));
    }
    forall i | 0 <= i < |e.children|
      ensures AllNumbered(QuotedElem(e).children[i].elem, nsMap) && Clean(QuotedElem(e).children[i].elem) &&
              CleanTexts(QuotedElem(e).children[i].following)
    {
      QuotedIsClean(e.children[i].elem, nsMap);
      QuotedConcats(e.children[i].following);
    }
  }

  /** Without its quotation an element is read as it was before. */
  lemma {:induction false} PlainImage(e: Elem, langs: seq<string>, decls: seq<(nat, string)>, nsMap: NsMap)
    requires AllNumbered(e, nsMap) && AllNumbered(QuotedElem(e), nsMap)
    ensures Plain(Image(QuotedElem(e), langs, decls, nsMap)) == Image(e, langs, decls, nsMap)
    ensures PlainContent(ContentImage(QuotedElem(e), nsMap)) == ContentImage(e, nsMap)
  {
    var q := QuotedElem(e);
    QuotedConcats(e.first);
    UnquotesQuoted(Concat(e.first), false);
    forall i | 0 <= i < |e.attrs| ensures Unquoted(q.attrs[i].value) == e.attrs[i].value {
      UnquotesQuoted(e.attrs[i].value, true);
    }
    assert UnquotedAttrs(Renumbered(q.attrs, nsMap)) == Renumbered(e.attrs, nsMap);
    forall i | 0 <= i < |e.children|
      ensures PlainContent(ContentImage(q, nsMap)).children[i] == ContentImage(e, nsMap).children[i]
    {
      var c := e.children[i];
      assert q.children[i] == QuotedChild(c) && AllNumbered(q.children[i].elem, nsMap);
      PlainImage(c.elem, OwnLangs(c.elem, Under(e.lang)), [], nsMap);
      QuotedConcats(c.following);
      UnquotesQuoted(Concat(c.following), false);
    }
  }

  /**
   Any element with proper names, once it is quoted and written in full, is read back as it was: names, namespace
   numbers, attributes in order, languages, texts and children.
   */
  lemma QuotedIsReadBack(e: Elem, up: Up, nsMap: NsMap)
    requires AllNumbered(e, nsMap) && CleanNames(e)
    ensures AllNumbered(QuotedElem(e), nsMap)
    ensures var r := ReadElem(Text(QuotedElem(e), FULL, up, [], nsMap));
            r.Got? && r.rest == [] && Plain(r.value) == Image(e, OwnLangs(e, up), [], nsMap)
  {
    QuotedIsClean(e, nsMap);
    TextIsReadBack(QuotedElem(e), FULL, up, [], nsMap);
    PlainImage(e, OwnLangs(e, up), [], nsMap);
  }

  /** The same with the declarations of all namespaces, which are quoted when they are parsed */
  lemma DeclaredIsReadBack(e: Elem, up: Up, uris: seq<string>, nsMap: NsMap)
    requires AllNumbered(e, nsMap) && CleanNames(e) && forall i :: 0 <= i < |uris| ==> Lacks(uris[i], "\"")
    ensures AllNumbered(QuotedElem(e), nsMap)
    ensures var r := ReadElem(Text(QuotedElem(e), FULL_NS_LANG, up, uris, nsMap));
            r.Got? && r.rest == [] && Plain(r.value) == Image(e, LangsOf(e.lang), Declarations(uris), nsMap)
  {
    QuotedIsClean(e, nsMap);
    TextIsReadBack(QuotedElem(e), FULL_NS_LANG, up, uris, nsMap);
    PlainImage(e, LangsOf(e.lang), Declarations(uris), nsMap);
  }
}
