/** The parser object, whose handlers Expat calls. */
module XmlParser {
  import opened XmlQuote
  import opened XmlText
  import opened XmlDocument
  import opened XmlParse

  function Reverse(s: seq<RawAttr>): seq<RawAttr> {
    if |s| == 0 then [] else Reverse(s[1..]) + [s[0]]
  }

  lemma {:induction false} ReverseSnoc(s: seq<RawAttr>, a: RawAttr)
    ensures Reverse(s + [a]) == [a] + Reverse(s)
  {
    if |s| > 0 {
      assert (s + [a])[1..] == s[1..] + [a];
      ReverseSnoc(s[1..], a);
    } else {
      assert s + [a] == [a] && [a][1..] == [];
    }
  }

  lemma ReverseNone()
    ensures Reverse([]) == []
  {
  }

  class Parser {
    var error: int
    var open: seq<Elem>             // the current element is the last, its ancestors stand before it
    var scopes: seq<seq<Scope>>     // the ns_scope list of each
    var root: Doc
    var namespaces: seq<string>
    var next: nat                   // the identity of the next language string

    ghost predicate Valid()
      reads this
    {
      error == 0 ==> |scopes| == |open| && ScopesInRange(scopes)
    }

    function Now(): State
      reads this
    {
      if error != 0 then Failed(error) else Running(open, scopes, root, namespaces, next)
    }

    /** apr_xml_parser_create */
    constructor ()
      ensures Valid() && Now() == Created()
    {
      error, open, scopes, root, namespaces, next := 0, [], [], NoRoot, [DAV], 0;
    }

    /** find_prefix: up the tree, and along the scopes of each element */
    method LookUp(prefix: string) returns (ns: int)
      ensures ns == FindPrefix(scopes, prefix)
    {
      var k := |scopes|;
      assert scopes[..k] == scopes;
      while k > 0
        invariant 0 <= k <= |scopes| && FindPrefix(scopes, prefix) == FindPrefix(scopes[..k], prefix)
      {
        k := k - 1;
        var level := scopes[k];
        assert scopes[..k + 1][..k] == scopes[..k];
        var i := 0;
        assert level[0..] == level;
        while i < |level|
          invariant 0 <= i <= |level| && FindIn(level, prefix) == FindIn(level[i..], prefix)
        {
          if prefix == level[i].prefix {
            return if level[i].emptyUri then NS_NONE else level[i].ns;
          }
          assert level[i..][1..] == level[i + 1..];
          i := i + 1;
        }
      }
      ns := if prefix == "" then NS_NONE else UNKNOWN_PREFIX;
    }

    /** The namespace of an element's or attribute's name, and its local part; the number tells an error. */
    method NumberName(name: string, isElem: bool) returns (ns: int, local: string)
      ensures match Resolve(name, isElem, scopes)
              case Ok(n) => ns > -100 && n == Name(ns, local)
              case Error(code) => ns <= -100 && ns == code
      requires ScopesInRange(scopes)
    {
      var colon := ColonAt(name);
      local := name;
      if colon < 0 {
        if isElem {
          ns := LookUp("");
          NoPrefixIsFound(scopes);
        } else {
          ns := NS_NONE;
        }
      } else if Reserved(name) {
        ns := NS_NONE;
      } else {
        ns := LookUp(name[..colon]);
        local := name[colon + 1..];
      }
    }

    /** start_handler */
    method StartHandler(name: string, attrs: seq<RawAttr>)
      requires Valid()
      modifies this
      ensures Valid()
      ensures Now() == Step(old(Now()), Start(name, attrs))
    {
      if error != 0 {
        return;
      }
      ghost var s, scan := Now(), ScanAttrs(attrs, EmptyScan(namespaces, next));
      InRangeScan(attrs, EmptyScan(namespaces, next));
      InRangeSnoc(scopes, scan.scopes);
      hide ScanAttrs, Resolve, ResolveAttrs, ScopesInRange, ParentLang, Reverse;
      var parent := ParentLang(open);
      var list := LinkAttributes(attrs);
      open := open + [Elem(name, 0, NoLang, [], [], [])];
      scopes := scopes + [[]];
      assert scopes[..|scopes| - 1] == s.scopes;
      var lang;
      list, lang := ScanList(list, attrs);
      if error != 0 {
        return;
      }
      if lang.NoLang? {
        lang := parent;
      }
      assert open[..|open| - 1] == s.open;
      NumberElement(name, lang, list);
    }

    /** The new element on top gets its namespace number, its language and its attributes. */
    method NumberElement(name: string, lang: Lang, list: seq<RawAttr>)
      requires error == 0 && ScopesInRange(scopes) && |open| > 0
      modifies this`error, this`open
      ensures match Resolve(name, true, scopes)
              case Error(code) => error == code != 0
              case Ok(n) =>
                match ResolveAttrs(list, scopes)
                case Error(code) => error == code != 0
                case Ok(attrs) =>
                  && error == 0
                  && open == old(open)[..|old(open)| - 1] + [Elem(n.local, n.ns, lang, attrs, [], [])]
    {
      hide Resolve, ResolveAttrs, ScopesInRange;
      var ns, local := NumberName(name, true);
      if ns <= -100 {
        error := ns;
        return;
      }
      var numbered;
      numbered := NumberAttrs(list);
      if error != 0 {
        return;
      }
      open := open[..|open| - 1] + [Elem(local, ns, lang, numbered, [], [])];
    }

    /** The attributes are linked in at the front, one after the other. */
    method LinkAttributes(attrs: seq<RawAttr>) returns (list: seq<RawAttr>)
      ensures list == Reverse(attrs)
    {
      list := [];
      for i := 0 to |attrs|
        invariant list == Reverse(attrs[..i])
      {
        assert attrs[..i + 1] == attrs[..i] + [attrs[i]];
        ReverseSnoc(attrs[..i], attrs[i]);
        list := [attrs[i]] + list;
      }
      assert attrs[..|attrs|] == attrs;
    }

    /** The list of attributes is scanned for declarations and the language, which are unlinked from it. */
    method ScanList(list: seq<RawAttr>, ghost attrs: seq<RawAttr>) returns (rest: seq<RawAttr>, lang: Lang)
      requires list == Reverse(attrs) && error == 0 && |scopes| > 0 && |scopes[|scopes| - 1]| == 0
      modifies this`error, this`scopes, this`namespaces, this`next
      ensures var scan := ScanAttrs(attrs, EmptyScan(old(namespaces), old(next)));
              if scan.bad then error == INVALID_DECL
              else error == 0 && rest == scan.kept && lang == scan.lang && namespaces == scan.table && next == scan.next
                   && scopes == old(scopes)[..|old(scopes)| - 1] + [scan.scopes]
    {
      ghost var s0, m := EmptyScan(namespaces, next), |attrs|;
      var top := |scopes| - 1;
      ghost var below := scopes[..top];
      hide Quoted, Inserted, Names, Proper, Reverse;
      rest, lang := list, NoLang;
      var i := 0;
      ReverseNone();
      assert attrs[..m] == attrs && attrs[m..] == [] && rest[0..] == rest && rest[..0] == [] && scopes[top] == [];
      while i < |rest|
        invariant 0 <= i <= |rest| && 0 <= m <= |attrs| && error == 0
        invariant rest[i..] == Reverse(attrs[..m])
        invariant |below| == top && |scopes| == top + 1 && scopes[..top] == below
        invariant ScanAttrs(attrs[m..], s0) == Scan(rest[..i], scopes[top], lang, namespaces, next, false)
        decreases m
      {
        assert m > 0 by {
          ReverseNone();
        }
        ghost var scan := ScanAttrs(attrs[m..], s0);
        assert attrs[..m] == attrs[..m - 1] + [attrs[m - 1]];
        ReverseSnoc(attrs[..m - 1], attrs[m - 1]);
        var a := rest[i];
        assert a == rest[i..][0] == attrs[m - 1];
        assert attrs[m - 1..][1..] == attrs[m..];
        m := m - 1;
        assert ScanAttrs(attrs[m..], s0) == ScanOne(a, scan);
        assert rest[i + 1..] == rest[i..][1..];
        if IsDecl(a.name) {
          if |a.name| > 5 && a.value == "" {
            error := INVALID_DECL;
            BadStays(attrs, m, s0);
            return;
          }
          var quoted := QuoteString(a.value, true);
          var ns;
          ns, namespaces := InsertUri(namespaces, quoted);
          scopes := scopes[top := [Scope(DeclaredPrefix(a.name), ns, quoted == "")] + scopes[top]];
          rest := rest[..i] + rest[i + 1..];
        } else if IsLang(a.name) {
          var quoted := QuoteString(a.value, true);
          lang := Lang(next, quoted);
          next := next + 1;
          rest := rest[..i] + rest[i + 1..];
        } else {
          assert rest[..i + 1] == rest[..i] + [a];
          i := i + 1;
        }
      }
      ReverseLength(attrs[..m]);
      assert attrs[0..] == attrs && rest[..i] == rest;
      assert scopes == below + [scopes[top]];
    }

    /** The remaining attributes get their numbers. */
    method NumberAttrs(list: seq<RawAttr>) returns (numbered: seq<Attr>)
      requires error == 0 && ScopesInRange(scopes)
      modifies this`error
      ensures match ResolveAttrs(list, scopes)
              case Ok(attrs) => error == 0 && numbered == attrs
              case Error(code) => error == code && error != 0
    {
      numbered := [];
      assert list[0..] == list;
      assert ResolveAttrs(list, scopes).Ok? ==>
               numbered + ResolveAttrs(list, scopes).value == ResolveAttrs(list, scopes).value;
      for i := 0 to |list|
        invariant error == 0
        invariant match ResolveAttrs(list[i..], scopes)
                  case Ok(attrs) => ResolveAttrs(list, scopes) == Ok(numbered + attrs)
                  case Error(code) => ResolveAttrs(list, scopes) == Error(code)
      {
        assert list[i..][1..] == list[i + 1..];
        var ns, local := NumberName(list[i].name, false);
        if ns <= -100 {
          error := ns;
          return;
        }
        NumberedStep(numbered, list[i..], scopes, Attr(local, ns, list[i].value));
        numbered := numbered + [Attr(local, ns, list[i].value)];
      }
      assert list[|list|..] == [] && numbered + [] == numbered;
    }

    /** end_handler */
    method EndHandler()
      requires Valid() && (error == 0 ==> |open| > 0)
      modifies this
      ensures Valid()
      ensures Now() == Step(old(Now()), End)
    {
      if error != 0 {
        return;
      }
      var k := |open| - 1;
      var elem := open[k];
      if k == 0 {
        root := HasRoot(elem);
        open := [];
      } else {
        var parent := open[k - 1];
        open := open[..k - 1] + [parent.(children := parent.children + [Child(elem, [])])];
      }
      scopes := scopes[..k];
      assert k > 0 ==> old(open)[..k][..k - 1] == old(open)[..k - 1];
    }

    /** cdata_handler */
    method CdataHandler(text: string)
      requires Valid() && (error == 0 ==> |open| > 0)
      modifies this`open
      ensures Valid() && Now() == Step(old(Now()), Cdata(text))
    {
      if error != 0 {
        return;
      }
      var k := |open| - 1;
      var elem := open[k];
      if |elem.children| == 0 {
        elem := elem.(first := elem.first + [text]);
      } else {
        var last := elem.children[|elem.children| - 1];
        last := last.(following := last.following + [text]);
        elem := elem.(children := elem.children[|elem.children| - 1 := last]);
      }
      open := open[..k] + [elem];
    }
  }

  /** No scope's number looks like an error. */
  predicate ScopesInRange(levels: seq<seq<Scope>>) {
    forall k, i :: 0 <= k < |levels| && 0 <= i < |levels[k]| ==> levels[k][i].ns >= NS_NONE
  }

  lemma {:induction false} NoPrefixIsFound(levels: seq<seq<Scope>>)
    requires ScopesInRange(levels)
    ensures FindPrefix(levels, "") >= NS_NONE
  {
    if |levels| > 0 {
      FoundInRange(levels[|levels| - 1], "");
      NoPrefixIsFound(levels[..|levels| - 1]);
    }
  }

  lemma {:induction false} FoundInRange(scopes: seq<Scope>, prefix: string)
    requires forall i :: 0 <= i < |scopes| ==> scopes[i].ns >= NS_NONE
    ensures FindIn(scopes, prefix).Hit? ==> FindIn(scopes, prefix).ns >= NS_NONE
  {
    if |scopes| > 0 {
      FoundInRange(scopes[1..], prefix);
    }
  }

  lemma {:induction false} InRangeScan(attrs: seq<RawAttr>, s: Scan)
    requires forall i :: 0 <= i < |s.scopes| ==> s.scopes[i].ns >= NS_NONE
    ensures forall i :: 0 <= i < |ScanAttrs(attrs, s).scopes| ==> ScanAttrs(attrs, s).scopes[i].ns >= NS_NONE
  {
    if |attrs| > 0 {
      InRangeScan(attrs[1..], s);
      var rest := ScanAttrs(attrs[1..], s);
      if IsDecl(attrs[0].name) {
        InsertedNames(rest.table, Quoted(attrs[0].value, true));
      }
    }
  }

  lemma InRangeSnoc(levels: seq<seq<Scope>>, scopes: seq<Scope>)
    requires ScopesInRange(levels) && forall i :: 0 <= i < |scopes| ==> scopes[i].ns >= NS_NONE
    ensures ScopesInRange(levels + [scopes])
  {
  }

  lemma {:induction false} BadStays(attrs: seq<RawAttr>, m: nat, s: Scan)
    requires m <= |attrs| && ScanAttrs(attrs[m..], s).bad
    ensures ScanAttrs(attrs, s).bad
  {
    if m > 0 {
      assert attrs[m - 1..][1..] == attrs[m..];
      BadStays(attrs, m - 1, s);
    } else {
      assert attrs[0..] == attrs;
    }
  }

  lemma NumberedStep(numbered: seq<Attr>, list: seq<RawAttr>, levels: seq<seq<Scope>>, a: Attr)
    requires |list| > 0 && Resolve(list[0].name, false, levels) == Ok(Name(a.ns, a.name)) && a.value == list[0].value
    ensures match ResolveAttrs(list[1..], levels)
            case Ok(attrs) =>
              && ResolveAttrs(list, levels).Ok?
              && numbered + ResolveAttrs(list, levels).value == (numbered + [a]) + attrs
            case Error(code) => ResolveAttrs(list, levels) == Error(code)
  {
    if ResolveAttrs(list[1..], levels).Ok? {
      var attrs := ResolveAttrs(list[1..], levels).value;
      assert ResolveAttrs(list, levels) == Ok([a] + attrs);
      assert numbered + ([a] + attrs) == (numbered + [a]) + attrs;
    }
  }

  lemma {:induction false} ReverseLength(s: seq<RawAttr>)
    ensures |Reverse(s)| == |s|
  {
    if |s| > 0 {
      ReverseLength(s[1..]);
    }
  }
}
