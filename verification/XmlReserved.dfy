/** Where the parser's reading of names is that of the standard, for names, start tags and whole documents. */
module XmlReserved {
  import opened XmlDocument

  /** A name is read as the standard has it exactly when it is not set aside. */
  lemma NameIffNotSetAside(name: string, isElem: bool, env: seq<seq<Decl>>)
    ensures Expand(Reserving, name, isElem, env) == Expand(Standard, name, isElem, env) <==> !SetAside(name)
  {
    hide Innermost;
  }

  ghost predicate NoneSetAside(attrs: seq<RawAttr>) {
    forall i :: 0 <= i < |attrs| ==> !SetAside(attrs[i].name)
  }

  /** Two readings, the parser's and the standard one, that agree exactly under a condition; the parser accepts more. */
  ghost predicate Agree<T(!new)>(parser: Outcome<T>, standard: Outcome<T>, plain: bool) {
    && (plain ==> parser == standard)
    && (parser.Ok? && !plain ==> parser != standard)
    && (parser.Error? ==> standard.Error?)
  }

  lemma {:induction false} AttrsAgree(attrs: seq<RawAttr>, env: seq<seq<Decl>>)
    ensures Agree(ExpandAttrs(Reserving, attrs, env), ExpandAttrs(Standard, attrs, env), NoneSetAside(attrs))
  {
    if |attrs| > 0 {
      AttrsAgree(attrs[1..], env);
      NameIffNotSetAside(attrs[0].name, false, env);
      NameAccepted(attrs[0].name, false, env);
      assert NoneSetAside(attrs) <==> !SetAside(attrs[0].name) && NoneSetAside(attrs[1..]);
      hide Expand, SetAside, NoneSetAside;
      var p, s := ExpandAttrs(Reserving, attrs, env), ExpandAttrs(Standard, attrs, env);
      var ps, ss := ExpandAttrs(Reserving, attrs[1..], env), ExpandAttrs(Standard, attrs[1..], env);
      if p.Ok? && s.Ok? {
        assert p.value[1..] == ps.value && s.value[1..] == ss.value;
        assert p.value[0].name == Expand(Reserving, attrs[0].name, false, env).value.local;
        assert s.value[0].name == Expand(Standard, attrs[0].name, false, env).value.local;
      }
    }
  }

  /**
   The parser refuses no name that the standard gives a meaning; a name that it sets aside it reads as a longer one.
   */
  lemma NameAccepted(name: string, isElem: bool, env: seq<seq<Decl>>)
    ensures Expand(Reserving, name, isElem, env).Error? ==> Expand(Standard, name, isElem, env).Error?
    ensures SetAside(name) ==> Expand(Reserving, name, isElem, env) == Ok(Expanded("", name))
    ensures SetAside(name) && Expand(Standard, name, isElem, env).Ok? ==>
              |Expand(Standard, name, isElem, env).value.local| < |name|
  {
    hide Innermost;
  }

  /** No element or attribute name of the tag is set aside. */
  ghost predicate PlainTag(name: string, attrs: seq<RawAttr>) {
    !SetAside(name) && NoneSetAside(Plain(attrs))
  }

  /** All that a start tag gives is kept by the contents, so what differs there differs in the end. */
  ghost predicate SameTag(x: XElem, y: XElem) {
    x.uri == y.uri && x.name == y.name && x.lang == y.lang && x.own == y.own && x.attrs == y.attrs
  }

  lemma TagsAgree(name: string, attrs: seq<RawAttr>, env: seq<seq<Decl>>, up: Language)
    requires forall i :: 0 <= i < |attrs| ==> !BadDecl(attrs[i])
    ensures var p, s := OpenMeaning(Reserving, name, attrs, env, up), OpenMeaning(Standard, name, attrs, env, up);
            && Agree(p, s, PlainTag(name, attrs))
            && (p.Ok? && s.Ok? && !PlainTag(name, attrs) ==> !SameTag(p.value, s.value) && p.value.lang == s.value.lang)
  {
    var inner := env + [Decls(attrs)];
    NameIffNotSetAside(name, true, inner);
    NameAccepted(name, true, inner);
    AttrsAgree(Plain(attrs), inner);
    hide Expand, ExpandAttrs, SetAside, NoneSetAside, Plain, Decls, OwnLanguage, BadDecl;
  }

  /** No name in the document is set aside. */
  ghost predicate PlainNames(raw: Raw)
    decreases raw, 1
  {
    PlainTag(raw.name, raw.attrs) && PlainContent(raw, 0)
  }

  ghost predicate PlainContent(raw: Raw, k: nat)
    requires k <= |raw.content|
    decreases raw, 0, |raw.content| - k
  {
    k < |raw.content| ==> PlainItem(raw, k) && PlainContent(raw, k + 1)
  }

  ghost predicate PlainItem(raw: Raw, k: nat)
    requires k < |raw.content|
    decreases raw, 0, |raw.content| - k, 0
  {
    match raw.content[k]
    case Words(_) => true
    case Inside(child) => PlainNames(child)
  }

  // ---------- contents ----------

  /** r is x with more contents. */
  ghost predicate Longer(x: XElem, r: XElem) {
    && SameTag(x, r) && |x.children| <= |r.children|
    && forall i :: 0 <= i < |x.children| ==> r.children[i].elem == x.children[i].elem
  }

  lemma {:induction false} ContentKeeps(rule: Rule, raw: Raw, k: nat, x: XElem, env: seq<seq<Decl>>)
    requires k <= |raw.content| && MeantContent(rule, raw, k, x, env).Ok?
    ensures Longer(x, MeantContent(rule, raw, k, x, env).value)
    decreases |raw.content| - k
  {
    if k < |raw.content| {
      match raw.content[k]
      case Words(text) => ContentKeeps(rule, raw, k + 1, WithText(x, text), env);
      case Inside(child) =>
        ContentKeeps(rule, raw, k + 1, WithChild(x, Meant(rule, child, env, x.lang).value), env);
    }
  }

  /** Whether contents have a meaning depends on nothing of their element but its language. */
  lemma {:induction false} ContentAccepted(rule: Rule, raw: Raw, k: nat, x: XElem, y: XElem, env: seq<seq<Decl>>)
    requires k <= |raw.content| && x.lang == y.lang
    ensures MeantContent(rule, raw, k, x, env).Ok? <==> MeantContent(rule, raw, k, y, env).Ok?
    decreases |raw.content| - k
  {
    if k < |raw.content| {
      match raw.content[k]
      case Words(text) => ContentAccepted(rule, raw, k + 1, WithText(x, text), WithText(y, text), env);
      case Inside(child) =>
        var m := Meant(rule, child, env, x.lang);
        if m.Ok? {
          ContentAccepted(rule, raw, k + 1, WithChild(x, m.value), WithChild(y, m.value), env);
        }
    }
  }

  /** Contents that go on from different elements with the same language end in different elements. */
  lemma Diverged(raw: Raw, k: nat, x: XElem, y: XElem, env: seq<seq<Decl>>)
    requires k <= |raw.content| && x.lang == y.lang
    requires || !SameTag(x, y)
             || exists i :: 0 <= i < |x.children| && i < |y.children| && x.children[i].elem != y.children[i].elem
    requires var p, s := MeantContent(Reserving, raw, k, x, env), MeantContent(Standard, raw, k, x, env);
             p.Error? ==> s.Error?
    ensures Agree(MeantContent(Reserving, raw, k, x, env), MeantContent(Standard, raw, k, y, env), false)
  {
    var p, s := MeantContent(Reserving, raw, k, x, env), MeantContent(Standard, raw, k, y, env);
    ContentAccepted(Standard, raw, k, x, y, env);
    if p.Ok? && s.Ok? {
      ContentKeeps(Reserving, raw, k, x, env);
      ContentKeeps(Standard, raw, k, y, env);
    }
    hide MeantContent;
  }

  lemma {:induction false} ContentAgrees(raw: Raw, k: nat, x: XElem, env: seq<seq<Decl>>)
    requires k <= |raw.content|
    ensures Agree(MeantContent(Reserving, raw, k, x, env), MeantContent(Standard, raw, k, x, env), PlainContent(raw, k))
    decreases raw, 0, |raw.content| - k
  {
    if k < |raw.content| {
      assert PlainContent(raw, k) <==> PlainItem(raw, k) && PlainContent(raw, k + 1);
      match raw.content[k]
      case Words(text) => ContentAgrees(raw, k + 1, WithText(x, text), env);
      case Inside(child) =>
        DocumentAgrees(child, env, x.lang);
        var p, s := Meant(Reserving, child, env, x.lang), Meant(Standard, child, env, x.lang);
        if p.Ok? {
          ContentAgrees(raw, k + 1, WithChild(x, p.value), env);
          if s.Ok? && p != s {
            var x', y' := WithChild(x, p.value), WithChild(x, s.value);
            assert x'.children[|x.children|].elem != y'.children[|x.children|].elem;
            Diverged(raw, k + 1, x', y', env);
          }
        }
    }
  }

  /**
   A document that the parser accepts has the tree of the standard exactly when no name in it is set aside; then the
   two also refuse the same documents, and the parser never refuses a document that the standard gives a meaning.
   */
  lemma {:induction false} DocumentAgrees(raw: Raw, env: seq<seq<Decl>>, up: Language)
    ensures Agree(Meant(Reserving, raw, env, up), Meant(Standard, raw, env, up), PlainNames(raw))
    decreases raw, 1
  {
    if forall i :: 0 <= i < |raw.attrs| ==> !BadDecl(raw.attrs[i]) {
      var inner := env + [Decls(raw.attrs)];
      TagsAgree(raw.name, raw.attrs, env, up);
      var p, s := OpenMeaning(Reserving, raw.name, raw.attrs, env, up),
        OpenMeaning(Standard, raw.name, raw.attrs, env, up);
      hide OpenMeaning, PlainTag, SameTag, MeantContent;
      if p.Ok? {
        ContentAgrees(raw, 0, p.value, inner);
        if s.Ok? && !PlainTag(raw.name, raw.attrs) {
          Diverged(raw, 0, p.value, s.value, inner);
        }
      }
    }
  }

  // ---------- declared prefixes that begin with xml ----------

  function Declaring(prefix: string, uri: string): RawAttr {
    RawAttr("xmlns:" + prefix, uri)
  }

  /** An element that declares its own reserved prefix has two readings: only the standard one knows the declaration. */
  lemma TagReadings(prefix: string, local: string, uri: string)
    requires Reserved(prefix) && ':' !in prefix && uri != ""
    ensures var name, attrs := prefix + ":" + local, [Declaring(prefix, uri)];
            && Innermost([Decls(attrs)], prefix) == Bound(uri)
            && Meant(Standard, Raw(name, attrs, []), [], Unspoken) == Ok(XElem(uri, local, Unspoken, false, [], [], []))
            && Meant(Reserving, Raw(name, attrs, []), [], Unspoken) == Ok(XElem("", name, Unspoken, false, [], [], []))
  {
    var name, attr := prefix + ":" + local, Declaring(prefix, uri);
    var attrs, env := [attr], [Decls([attr])];
    TagScanned(prefix, uri);
    NameReadings(prefix, local, uri, env);
    assert [] + env == env && !BadDecl(attr);
    hide Expand, Decls, Plain, OwnLanguage, Innermost, BadDecl;
  }

  lemma TagScanned(prefix: string, uri: string)
    ensures var attrs := [Declaring(prefix, uri)];
            && Decls(attrs) == [Decl(prefix, uri)] && Plain(attrs) == [] && OwnLanguage(attrs).Unspoken?
            && Innermost([Decls(attrs)], prefix) == Bound(uri)
  {
    var attr := Declaring(prefix, uri);
    assert attr.name[..5] == "xmlns" && attr.name[6..] == prefix && [attr][1..] == [];
    assert Decls([attr]) == [Decl(prefix, uri)];
    assert FirstIn([Decl(prefix, uri)], prefix) == Bound(uri);
  }

  lemma NameReadings(prefix: string, local: string, uri: string, env: seq<seq<Decl>>)
    requires Reserved(prefix) && ':' !in prefix && Innermost(env, prefix) == Bound(uri)
    ensures var name := prefix + ":" + local;
            && Expand(Standard, name, true, env) == Ok(Expanded(uri, local))
            && Expand(Reserving, name, true, env) == Ok(Expanded("", name))
  {
    var name := prefix + ":" + local;
    hide Innermost;
    ColonIs(name, |prefix|);
    assert name[..|prefix|] == prefix && name[|prefix| + 1..] == local;
  }

  lemma ColonIs(name: string, k: nat)
    requires k < |name| && name[k] == ':' && forall i :: 0 <= i < k ==> name[i] != ':'
    ensures ColonAt(name) == k
  {
  }
}
