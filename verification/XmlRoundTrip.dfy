/** Parsing a document and serializing its tree keeps what it means. */
module XmlRoundTrip {
  import opened Basics
  import opened XmlQuote
  import opened XmlText
  import opened XmlDocument
  import opened XmlParse
  import Reader = XmlReader

  // ---------- names ----------

  /** A name as in section 4 of Namespaces in XML 1.0, as far as its delimiters go */
  ghost predicate ProperName(name: string) {
    && name != [] && Reader.Lacks(name, " =/>")
    && var k := ColonAt(name); k < 0 || (0 < k < |name| - 1 && ':' !in name[k + 1..])
  }

  ghost predicate ProperNames(raw: Raw)
    decreases raw
  {
    && ProperName(raw.name) && (forall i :: 0 <= i < |raw.attrs| ==> ProperName(raw.attrs[i].name))
    && forall i :: 0 <= i < |raw.content| && raw.content[i].Inside? ==> ProperNames(raw.content[i].raw)
  }

  /** A name in no namespace has no colon, unless it was set aside. */
  ghost predicate Writable(name: string, uri: string) {
    name != [] && Reader.Lacks(name, " =/>") && (uri == "" ==> ':' !in name || Reserved(name))
  }

  ghost predicate WritableAttr(a: XAttr) {
    Writable(a.name, a.uri) && (a.uri == "" ==> ':' !in a.name || !(IsDecl(a.name) || IsLang(a.name)))
  }

  /** Names can be written, and an element without a language of its own has that of its parent. */
  ghost predicate WellMade(x: XElem, up: Language)
    decreases x
  {
    && Writable(x.name, x.uri) && (!x.own ==> x.lang == up)
    && (forall i :: 0 <= i < |x.attrs| ==> WritableAttr(x.attrs[i]))
    && forall i :: 0 <= i < |x.children| ==> WellMade(x.children[i].elem, x.lang)
  }

  lemma ExpandedIsWritable(name: string, isElem: bool, env: seq<seq<Decl>>)
    requires ProperName(name) && Expand(Reserving, name, isElem, env).Ok?
    ensures var n := Expand(Reserving, name, isElem, env).value;
            Writable(n.local, n.uri) && (n.local == name || ':' !in n.local)
  {
    var k := ColonAt(name);
    assert k < 0 ==> name[k + 1..] == name;
    LacksTail(name, k + 1, " =/>");
    hide Meaning, Reader.Lacks, Reserved;
  }

  lemma LacksTail(s: string, k: nat, stops: string)
    requires Reader.Lacks(s, stops) && k <= |s|
    ensures Reader.Lacks(s[k..], stops)
  {
  }

  lemma {:induction false} ExpandedAttrs(attrs: seq<RawAttr>, env: seq<seq<Decl>>)
    requires ExpandAttrs(Reserving, attrs, env).Ok?
    requires forall a :: a in attrs ==> ProperName(a.name) && !IsDecl(a.name) && !IsLang(a.name)
    ensures var xs := ExpandAttrs(Reserving, attrs, env).value; forall i :: 0 <= i < |xs| ==> WritableAttr(xs[i])
  {
    if |attrs| > 0 {
      assert attrs[0] in attrs;
      ExpandedIsWritable(attrs[0].name, false, env);
      ExpandedAttrs(attrs[1..], env);
      hide Expand, ProperName, Writable;
    }
  }

  lemma {:induction false} PlainMembers(attrs: seq<RawAttr>)
    ensures forall a :: a in Plain(attrs) ==> a in attrs && !IsDecl(a.name) && !IsLang(a.name)
  {
    if |attrs| > 0 {
      PlainMembers(attrs[1..]);
    }
  }

  lemma OpenIsWellMade(raw: Raw, env: seq<seq<Decl>>, up: Language)
    requires ProperNames(raw) && OpenMeaning(Reserving, raw.name, raw.attrs, env, up).Ok?
    ensures WellMade(OpenMeaning(Reserving, raw.name, raw.attrs, env, up).value, up)
  {
    var inner := env + [Decls(raw.attrs)];
    PlainMembers(raw.attrs);
    assert forall a :: a in raw.attrs ==> ProperName(a.name);
    ExpandedIsWritable(raw.name, true, inner);
    ExpandedAttrs(Plain(raw.attrs), inner);
    hide Expand, ExpandAttrs, Plain, Decls, Writable, WritableAttr, ProperName;
  }

  /** What a document means can be written. */
  lemma {:induction false} MeantIsWellMade(raw: Raw, env: seq<seq<Decl>>, up: Language)
    requires ProperNames(raw) && Meant(Reserving, raw, env, up).Ok?
    ensures WellMade(Meant(Reserving, raw, env, up).value, up)
    decreases raw, 1
  {
    OpenIsWellMade(raw, env, up);
    var x := OpenMeaning(Reserving, raw.name, raw.attrs, env, up).value;
    ContentIsWellMade(raw, 0, x, env + [Decls(raw.attrs)], up);
  }

  lemma {:induction false} ContentIsWellMade(raw: Raw, k: nat, x: XElem, env: seq<seq<Decl>>, up: Language)
    requires ProperNames(raw) && k <= |raw.content| && WellMade(x, up) && MeantContent(Reserving, raw, k, x, env).Ok?
    ensures WellMade(MeantContent(Reserving, raw, k, x, env).value, up)
    decreases raw, 0, |raw.content| - k
  {
    if k < |raw.content| {
      match raw.content[k]
      case Words(text) => ContentIsWellMade(raw, k + 1, WithText(x, text), env, up);
      case Inside(child) =>
        MeantIsWellMade(child, env, x.lang);
        ContentIsWellMade(raw, k + 1, WithChild(x, Meant(Reserving, child, env, x.lang).value), env, up);
    }
  }

  // ---------- parsed trees can be read ----------

  lemma NoNumber(name: string)
    requires ':' !in name || Reserved(name)
    ensures Reader.SplitName(name).1 == NS_NONE
  {
    if "ns" <= name && !Reserved(name) {
      Reader.UptoIs(name[2..], [], ":");
      assert name[2..] + [] == name[2..];
    }
  }

  lemma DeclaringName(name: string)
    ensures "xmlns:ns" <= name ==> IsDecl(name) && ':' in name
  {
    if "xmlns:ns" <= name {
      assert name[..5] == "xmlns:ns"[..5] && name[5] == "xmlns:ns"[5];
    }
  }

  lemma NotSpecial(name: string)
    requires ':' !in name || !(IsDecl(name) || IsLang(name))
    ensures Reader.UseOf(name).Attribute?
  {
    assert "xml:lang"[3] == ':';
    DeclaringName(name);
    hide Reader.SplitName, Value, AllDigits, IsDecl;
  }

  lemma NameIsClean(name: string, uri: string, ns: int, table: seq<string>)
    requires Writable(name, uri) && Names(table, ns, Quoted(uri, true))
    ensures Reader.CleanName(name, ns)
  {
    QuotedEmpty(uri);
    if ns == NS_NONE {
      NoNumber(name);
    }
  }

  lemma AttrIsClean(a: Attr, x: XAttr, table: seq<string>)
    requires AttrMeans(a, x, table) && WritableAttr(x)
    ensures Reader.CleanAttr(a.(value := []))
  {
    NameIsClean(x.name, x.uri, a.ns, table);
    if a.ns == NS_NONE {
      QuotedEmpty(x.uri);
      NotSpecial(x.name);
    }
    hide Reader.CleanName, Reader.UseOf;
  }

  lemma {:induction false} ParsedIsClean(e: Elem, x: XElem, up: Up, l: Language, table: seq<string>)
    requires Matches(e, x, up, table) && WellMade(x, l)
    ensures Reader.CleanNames(e)
    decreases e
  {
    NameIsClean(x.name, x.uri, e.ns, table);
    if x.lang.Spoken? {
      QuotedHasNoMarkup(x.lang.text, true);
    }
    forall i | 0 <= i < |e.attrs| ensures Reader.CleanAttr(e.attrs[i].(value := [])) {
      AttrIsClean(e.attrs[i], x.attrs[i], table);
    }
    forall i | 0 <= i < |e.children| ensures Reader.CleanNames(e.children[i].elem) {
      ParsedIsClean(e.children[i].elem, x.children[i].elem, Under(e.lang), x.lang, table);
    }
  }

  /** Every URI in the table is quoted. */
  ghost predicate QuotedTable(table: seq<string>) {
    forall i :: 0 <= i < |table| ==> Reader.Lacks(table[i], "\"")
  }

  lemma {:induction false} ScanKeepsQuoted(attrs: seq<RawAttr>, s: Scan)
    requires QuotedTable(s.table)
    ensures QuotedTable(ScanAttrs(attrs, s).table)
  {
    if |attrs| > 0 {
      ScanKeepsQuoted(attrs[1..], s);
      QuotedHasNoMarkup(attrs[0].value, true);
      hide Quoted, BadDecl, LastIndex;
    }
  }

  lemma {:induction false} ReachesQuoted(s: State, events: seq<Event>, s': State)
    requires Reaches(s, events, s') && (s.Running? ==> QuotedTable(s.table))
    ensures s'.Running? ==> QuotedTable(s'.table)
    decreases |events|
  {
    if |events| > 0 {
      if s.Running? && events[0].Start? {
        ScanKeepsQuoted(events[0].attrs, EmptyScan(s.table, s.next));
      }
      hide QuotedTable, ScanAttrs, Resolve, ResolveAttrs, Attach, AddText;
      ReachesQuoted(Step(s, events[0]), events[1..], s');
    }
  }

  // ---------- what is read means the same ----------

  /** The URI that the declarations of the outermost element give to a number */
  function UriOf(decls: seq<(nat, string)>, ns: int): string {
    if ns == NS_NONE || |decls| == 0 then ""
    else if decls[0].0 == ns then Unquoted(decls[0].1) else UriOf(decls[1..], ns)
  }

  function LanguageOf(langs: seq<string>, up: Language): Language {
    if |langs| == 0 then up else Spoken(Unquoted(langs[0]))
  }

  ghost predicate TellsAttr(a: Attr, x: XAttr, decls: seq<(nat, string)>) {
    a.name == x.name && a.value == x.value && UriOf(decls, a.ns) == x.uri
  }

  /**
   What is read tells the expanded names, the languages, the attributes in their order, the texts and the children.
   */
  ghost predicate Tells(r: Reader.Read, x: XElem, decls: seq<(nat, string)>, up: Language)
    decreases x
  {
    && r.name == x.name && UriOf(decls, r.ns) == x.uri
    && LanguageOf(r.tag.langs, up) == x.lang && (x.own <==> r.tag.langs != [])
    && |r.tag.attrs| == |x.attrs| && (forall i :: 0 <= i < |x.attrs| ==> TellsAttr(r.tag.attrs[i], x.attrs[i], decls))
    && r.content.first == Concat(x.first) && |r.content.children| == |x.children|
    && forall i :: 0 <= i < |x.children| ==>
         && r.content.children[i].following == Concat(x.children[i].following)
         && Tells(r.content.children[i].elem, x.children[i].elem, decls, x.lang)
  }

  lemma {:induction false} UriOfDeclared(table: seq<string>, ns: nat)
    requires ns < |table|
    ensures UriOf(Reader.Declarations(table), ns) == Unquoted(table[ns])
    decreases |table|
  {
    var k := |table| - 1;
    var decls := Reader.Declarations(table);
    assert decls[0] == (k, table[k]);
    if ns < k {
      UriOfDeclared(table[..k], ns);
      assert decls[1..] == Reader.Declarations(table[..k]);
    }
  }

  lemma UriIsTold(table: seq<string>, ns: int, uri: string)
    requires Names(table, ns, Quoted(uri, true))
    ensures UriOf(Reader.Declarations(table), ns) == uri
  {
    QuotedEmpty(uri);
    if uri != "" {
      UriOfDeclared(table, ns);
      UnquotesQuoted(uri, true);
    }
  }

  lemma {:induction false} ImageTells(e: Elem, x: XElem, up: Up, l: Language, table: seq<string>)
    requires AllNumbered(e, NoMap) && Matches(e, x, up, table) && WellMade(x, l)
    ensures forall decls :: Tells(Reader.Image(e, Reader.OwnLangs(e, up), decls, NoMap), x, Reader.Declarations(table),
            l)
    decreases e
  {
    UriIsTold(table, e.ns, x.uri);
    if x.lang.Spoken? {
      UnquotesQuoted(x.lang.text, true);
    }
    forall i | 0 <= i < |e.attrs|
      ensures TellsAttr(Reader.Renumbered(e.attrs, NoMap)[i], x.attrs[i], Reader.Declarations(table))
    {
      assert AttrMeans(e.attrs[i], x.attrs[i], table);
      UriIsTold(table, e.attrs[i].ns, x.attrs[i].uri);
    }
    forall i | 0 <= i < |e.children|
      ensures e.children[i].following == x.children[i].following
      ensures Tells(Reader.ContentImage(e, NoMap).children[i].elem, x.children[i].elem, Reader.Declarations(table),
              x.lang)
    {
      ImageTells(e.children[i].elem, x.children[i].elem, Under(e.lang), x.lang, table);
    }
  }

  /**
   A document is parsed, its tree quoted and written with all declarations, and the text is read: every element has
   the expanded name, the language, the attributes, the texts and the children that it has in the document.
   */
  lemma SerializedMeansTheSame(raw: Raw) returns (s: State)
    requires ProperNames(raw) && Meant(Reserving, raw, [], Unspoken).Ok?
    ensures Reaches(Created(), Events(raw), s) && s.Running? && s.root.HasRoot?
    ensures |s.table| <= NS_LIMIT ==>
              && AllNumbered(QuotedElem(s.root.elem), NoMap)
              && var r := Reader.ReadElem(Text(QuotedElem(s.root.elem), FULL_NS_LANG, Root, s.table, NoMap));
                 && r.Got? && r.rest == []
                 && Tells(Reader.Plain(r.value), Meant(Reserving, raw, [], Unspoken).value, r.value.tag.decls, Unspoken)
  {
    hide *;
    s := ReadingMeans(raw);
    MeantIsWellMade(raw, [], Unspoken);
    CreatedQuoted();
    ReachesQuoted(Created(), Events(raw), s);
    if |s.table| <= NS_LIMIT {
      TreeMeansTheSame(s.root.elem, Meant(Reserving, raw, [], Unspoken).value, s.table);
    }
  }

  lemma CreatedQuoted()
    ensures Created().Running? && QuotedTable(Created().table)
  {
  }

  lemma TreeMeansTheSame(e: Elem, x: XElem, table: seq<string>)
    requires Matches(e, x, Root, table) && WellMade(x, Unspoken) && QuotedTable(table) && |table| <= NS_LIMIT
    ensures AllNumbered(QuotedElem(e), NoMap)
    ensures var r := Reader.ReadElem(Text(QuotedElem(e), FULL_NS_LANG, Root, table, NoMap));
            r.Got? && r.rest == [] && Tells(Reader.Plain(r.value), x, r.value.tag.decls, Unspoken)
  {
    assert forall i :: 0 <= i < |table| ==> Reader.Lacks(table[i], "\"");
    PlainKeepsDecls();
    RootLangs(e);
    hide *;
    ParsedIsNumbered(e, x, Root, table);
    ParsedIsClean(e, x, Root, Unspoken, table);
    Reader.DeclaredIsReadBack(e, Root, table, NoMap);
    ImageTells(e, x, Root, Unspoken, table);
    ImageDecls(e, Reader.Declarations(table));
  }

  lemma PlainKeepsDecls()
    ensures forall r: Reader.Read :: Reader.Plain(r).tag.decls == r.tag.decls
  {
  }

  lemma RootLangs(e: Elem)
    ensures Reader.OwnLangs(e, Root) == Reader.LangsOf(e.lang)
  {
  }

  lemma ImageDecls(e: Elem, decls: seq<(nat, string)>)
    requires AllNumbered(e, NoMap)
    ensures Reader.Image(e, Reader.LangsOf(e.lang), decls, NoMap).tag.decls == decls
  {
  }
}
