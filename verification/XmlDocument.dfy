/** What a document means under Namespaces in XML 1.0, and what the parser makes of it, without any table of URIs. */
module XmlDocument {

  // Every name is expanded to the URI of the innermost declaration of its prefix, and every element has the language
  // that is nearest to it. The two readings differ only in the rule by which names are expanded.

  datatype RawAttr = RawAttr(name: string, value: string)

  /** A document as its markup has it. */
  datatype Raw = Raw(name: string, attrs: seq<RawAttr>, content: seq<Item>)
  datatype Item = Words(text: string) | Inside(raw: Raw)

  datatype Decl = Decl(prefix: string, uri: string)

  datatype Language = Unspoken | Spoken(text: string)

  /**
   An element with expanded names; no namespace is the empty URI. Its language is its own (it has an xml:lang
   attribute) or that of its parent. Attributes stand in reverse order.
   */
  datatype XElem = XElem(uri: string, name: string, lang: Language, own: bool, attrs: seq<XAttr>, first: seq<string>,
    children: seq<XChild>)
  datatype XAttr = XAttr(uri: string, name: string, value: string)
  datatype XChild = XChild(elem: XElem, following: seq<string>)

  const UNKNOWN_PREFIX: int := -1000
  const INVALID_DECL: int := -1001

  datatype Outcome<T> = Ok(value: T) | Error(code: int)

  // ---------- names ----------

  function ColonAt(name: string): (k: int)
    ensures -1 <= k < |name| && (if k >= 0 then name[k] == ':' && ':' !in name[..k] else ':' !in name)
  {
    if |name| == 0 then -1
    else if name[0] == ':' then 0
    else
      var k := ColonAt(name[1..]);
      assert name == [name[0]] + name[1..];
      assert k >= 0 ==> name[..k + 1] == [name[0]] + name[1..][..k];
      if k < 0 then -1 else k + 1
  }

  /** A name that begins with xml in any case */
  predicate Reserved(name: string) {
    |name| >= 3 && (name[0] == 'X' || name[0] == 'x') && (name[1] == 'M' || name[1] == 'm') &&
      (name[2] == 'L' || name[2] == 'l')
  }

  predicate IsDecl(name: string) {
    |name| >= 5 && name[..5] == "xmlns" && (|name| == 5 || name[5] == ':')
  }

  function DeclaredPrefix(name: string): string
    requires IsDecl(name)
  {
    if |name| == 5 then "" else name[6..]
  }

  /** Only the default namespace can be set to the empty URI. */
  predicate BadDecl(a: RawAttr) {
    IsDecl(a.name) && |a.name| > 5 && a.value == ""
  }

  predicate IsLang(name: string) {
    name == "xml:lang"
  }

  // ---------- declarations in scope ----------

  function Decls(attrs: seq<RawAttr>): seq<Decl> {
    if |attrs| == 0 then []
    else if IsDecl(attrs[0].name) then [Decl(DeclaredPrefix(attrs[0].name), attrs[0].value)] + Decls(attrs[1..])
    else Decls(attrs[1..])
  }

  function OwnLanguage(attrs: seq<RawAttr>): Language {
    if |attrs| == 0 then Unspoken
    else if !IsDecl(attrs[0].name) && IsLang(attrs[0].name) then Spoken(attrs[0].value) else OwnLanguage(attrs[1..])
  }

  /** The other attributes, the last one first. */
  function Plain(attrs: seq<RawAttr>): seq<RawAttr> {
    if |attrs| == 0 then []
    else if IsDecl(attrs[0].name) || IsLang(attrs[0].name) then Plain(attrs[1..]) else Plain(attrs[1..]) + [attrs[0]]
  }

  datatype Binding = Bound(uri: string) | Unbound

  function FirstIn(decls: seq<Decl>, prefix: string): Binding {
    if |decls| == 0 then Unbound
    else if decls[0].prefix == prefix then Bound(decls[0].uri) else FirstIn(decls[1..], prefix)
  }

  /** The innermost declaration of the prefix; the scopes of the open elements stand outermost first. */
  function Innermost(env: seq<seq<Decl>>, prefix: string): Binding {
    if |env| == 0 then Unbound
    else if FirstIn(env[|env| - 1], prefix).Bound? then FirstIn(env[|env| - 1], prefix)
    else Innermost(env[..|env| - 1], prefix)
  }

  predicate Declares(decls: seq<Decl>, prefix: string) {
    exists j :: 0 <= j < |decls| && decls[j].prefix == prefix
  }

  lemma {:induction false} FirstInFinds(decls: seq<Decl>, prefix: string)
    ensures FirstIn(decls, prefix).Bound? <==> Declares(decls, prefix)
  {
    if |decls| > 0 && decls[0].prefix != prefix {
      FirstInFinds(decls[1..], prefix);
      if Declares(decls, prefix) {
        var j :| 0 <= j < |decls| && decls[j].prefix == prefix;
        assert decls[1..][j - 1].prefix == prefix;
      }
    }
  }

  /** The level that decides is the deepest one that declares the prefix. */
  lemma {:induction false} InnermostDecides(env: seq<seq<Decl>>, prefix: string, k: nat)
    requires k < |env| && Declares(env[k], prefix) && forall j :: k < j < |env| ==> !Declares(env[j], prefix)
    ensures Innermost(env, prefix) == FirstIn(env[k], prefix)
  {
    FirstInFinds(env[|env| - 1], prefix);
    if k < |env| - 1 {
      assert env[..|env| - 1][k] == env[k];
      InnermostDecides(env[..|env| - 1], prefix, k);
    }
  }

  lemma {:induction false} UndeclaredIsUnbound(env: seq<seq<Decl>>, prefix: string)
    ensures Innermost(env, prefix) == Unbound <==> forall j :: 0 <= j < |env| ==> !Declares(env[j], prefix)
  {
    if |env| > 0 {
      FirstInFinds(env[|env| - 1], prefix);
      UndeclaredIsUnbound(env[..|env| - 1], prefix);
      assert forall j :: 0 <= j < |env| - 1 ==> env[..|env| - 1][j] == env[j];
    }
  }

  const XML_NAMESPACE: string := "http://www.w3.org/XML/1998/namespace"

  /**
   No prefix and no declaration is no namespace, and xml is declared by the standard; another prefix must be
   declared.
   */
  function Meaning(env: seq<seq<Decl>>, prefix: string): Outcome<string> {
    match Innermost(env, prefix)
    case Bound(uri) => Ok(uri)
    case Unbound =>
      if prefix == "" then Ok("") else if prefix == "xml" then Ok(XML_NAMESPACE) else Error(UNKNOWN_PREFIX)
  }

  /**
   Names are read as in section 6 of Namespaces in XML 1.0, or as the parser does, which sets reserved names aside.
   */
  datatype Rule = Standard | Reserving

  /** A name with a prefix that begins with xml in any case: the parser looks up no declaration of the prefix. */
  predicate SetAside(name: string) {
    ColonAt(name) >= 0 && Reserved(name)
  }

  datatype Expanded = Expanded(uri: string, local: string)

  /** A name is expanded; without a prefix, an element is in the default namespace and an attribute in none. */
  function Expand(rule: Rule, name: string, isElem: bool, env: seq<seq<Decl>>): Outcome<Expanded> {
    var k := ColonAt(name);
    if k < 0 && !isElem then Ok(Expanded("", name))
    else if rule == Reserving && SetAside(name) then Ok(Expanded("", name))
    else
      match Meaning(env, if k < 0 then "" else name[..k])
      case Ok(uri) => Ok(Expanded(uri, name[k + 1..]))
      case Error(code) => Error(code)
  }

  function ExpandAttrs(rule: Rule, attrs: seq<RawAttr>, env: seq<seq<Decl>>): Outcome<seq<XAttr>> {
    if |attrs| == 0 then Ok([])
    else
      match Expand(rule, attrs[0].name, false, env)
      case Error(code) => Error(code)
      case Ok(n) =>
        match ExpandAttrs(rule, attrs[1..], env)
        case Error(code) => Error(code)
        case Ok(rest) => Ok([XAttr(n.uri, n.local, attrs[0].value)] + rest)
  }

  // ---------- elements ----------

  function NearestLanguage(attrs: seq<RawAttr>, up: Language): Language {
    if OwnLanguage(attrs).Spoken? then OwnLanguage(attrs) else up
  }

  /** The element of a start tag, still without contents. */
  function OpenMeaning(rule: Rule, name: string, attrs: seq<RawAttr>, env: seq<seq<Decl>>,
                       up: Language): Outcome<XElem> {
    if exists i :: 0 <= i < |attrs| && BadDecl(attrs[i]) then Error(INVALID_DECL)
    else
      var inner := env + [Decls(attrs)];
      match Expand(rule, name, true, inner)
      case Error(code) => Error(code)
      case Ok(n) =>
        match ExpandAttrs(rule, Plain(attrs), inner)
        case Error(code) => Error(code)
        case Ok(xs) => Ok(XElem(n.uri, n.local, NearestLanguage(attrs, up), OwnLanguage(attrs).Spoken?, xs, [], []))
  }

  /** Text goes behind the last child, or before all children. */
  function WithText(x: XElem, text: string): XElem {
    if |x.children| == 0 then x.(first := x.first + [text])
    else
      var k := |x.children| - 1;
      x.(children := x.children[k := x.children[k].(following := x.children[k].following + [text])])
  }

  function WithChild(x: XElem, child: XElem): XElem {
    x.(children := x.children + [XChild(child, [])])
  }

  /** The meaning of an element whose parents have these declarations and this language. */
  function Meant(rule: Rule, raw: Raw, env: seq<seq<Decl>>, up: Language): Outcome<XElem>
    decreases raw, 1
  {
    match OpenMeaning(rule, raw.name, raw.attrs, env, up)
    case Error(code) => Error(code)
    case Ok(x) => MeantContent(rule, raw, 0, x, env + [Decls(raw.attrs)])
  }

  /** The contents from k on come into the element. */
  function MeantContent(rule: Rule, raw: Raw, k: nat, x: XElem, env: seq<seq<Decl>>): Outcome<XElem>
    requires k <= |raw.content|
    decreases raw, 0, |raw.content| - k
  {
    if k == |raw.content| then Ok(x)
    else
      match raw.content[k]
      case Words(text) => MeantContent(rule, raw, k + 1, WithText(x, text), env)
      case Inside(child) =>
        match Meant(rule, child, env, x.lang)
        case Error(code) => Error(code)
        case Ok(c) => MeantContent(rule, raw, k + 1, WithChild(x, c), env)
  }
}
