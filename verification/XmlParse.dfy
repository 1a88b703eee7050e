/** The parser's handlers as steps, and what they make of a whole document. */
module XmlParse {
  import opened XmlQuote
  import opened XmlText
  import opened XmlDocument
  import opened XmlReserved

  /** A declaration in scope: its URI by number. */
  datatype Scope = Scope(prefix: string, ns: int, emptyUri: bool)

  datatype Doc = NoRoot | HasRoot(elem: Elem)

  datatype Event = Start(name: string, attrs: seq<RawAttr>) | End | Cdata(text: string)

  /**
   The open elements, outermost first, with the scopes of each; `next` is the identity of the next language string.
   */
  datatype State =
    | Running(open: seq<Elem>, scopes: seq<seq<Scope>>, root: Doc, table: seq<string>, next: nat)
    | Failed(code: int)

  // ---------- find_prefix ----------

  datatype Hit = Hit(ns: int) | Miss

  function FindIn(scopes: seq<Scope>, prefix: string): Hit {
    if |scopes| == 0 then Miss
    else if scopes[0].prefix == prefix then Hit(if scopes[0].emptyUri then NS_NONE else scopes[0].ns)
    else FindIn(scopes[1..], prefix)
  }

  function FindPrefix(levels: seq<seq<Scope>>, prefix: string): int {
    if |levels| == 0 then (if prefix == "" then NS_NONE else UNKNOWN_PREFIX)
    else
      match FindIn(levels[|levels| - 1], prefix)
      case Hit(ns) => ns
      case Miss => FindPrefix(levels[..|levels| - 1], prefix)
  }

  // ---------- start_handler ----------

  /** What the scan of the attributes has found so far. */
  datatype Scan = Scan(kept: seq<RawAttr>, scopes: seq<Scope>, lang: Lang, table: seq<string>, next: nat, bad: bool)

  function Declare(s: Scan, prefix: string, value: string): Scan {
    var uri := Quoted(value, true);
    var ns := Inserted(s.table, uri);
    s.(scopes := [Scope(prefix, ns.0, uri == "")] + s.scopes, table := ns.1)
  }

  function ScanOne(a: RawAttr, s: Scan): Scan {
    if IsDecl(a.name) then
      if BadDecl(a) then s.(bad := true) else Declare(s, DeclaredPrefix(a.name), a.value)
    else if IsLang(a.name) then s.(lang := Lang(s.next, Quoted(a.value, true)), next := s.next + 1)
    else s.(kept := s.kept + [a])
  }

  /** The attributes are scanned from the last to the first, up to an invalid declaration. */
  function ScanAttrs(attrs: seq<RawAttr>, s: Scan): Scan {
    if |attrs| == 0 then s
    else
      var rest := ScanAttrs(attrs[1..], s);
      if rest.bad then rest else ScanOne(attrs[0], rest)
  }

  datatype Name = Name(ns: int, local: string)

  /** The number of a name's namespace, and its local part. */
  function Resolve(name: string, isElem: bool, levels: seq<seq<Scope>>): Outcome<Name> {
    var k := ColonAt(name);
    if k < 0 && !isElem then Ok(Name(NS_NONE, name))
    else if k < 0 then Ok(Name(FindPrefix(levels, ""), name))
    else if Reserved(name) then Ok(Name(NS_NONE, name))
    else
      var ns := FindPrefix(levels, name[..k]);
      if ns <= -100 then Error(ns) else Ok(Name(ns, name[k + 1..]))
  }

  function ResolveAttrs(attrs: seq<RawAttr>, levels: seq<seq<Scope>>): Outcome<seq<Attr>> {
    if |attrs| == 0 then Ok([])
    else
      match Resolve(attrs[0].name, false, levels)
      case Error(code) => Error(code)
      case Ok(n) =>
        match ResolveAttrs(attrs[1..], levels)
        case Error(code) => Error(code)
        case Ok(rest) => Ok([Attr(n.local, n.ns, attrs[0].value)] + rest)
  }

  function ParentLang(open: seq<Elem>): Lang {
    if |open| == 0 then NoLang else open[|open| - 1].lang
  }

  function StepStart(s: State, name: string, attrs: seq<RawAttr>): State
    requires s.Running?
  {
    var scan := ScanAttrs(attrs, EmptyScan(s.table, s.next));
    if scan.bad then Failed(INVALID_DECL)
    else
      var levels := s.scopes + [scan.scopes];
      match Resolve(name, true, levels)
      case Error(code) => Failed(code)
      case Ok(n) =>
        match ResolveAttrs(scan.kept, levels)
        case Error(code) => Failed(code)
        case Ok(attrs) =>
          var lang := if scan.lang.Lang? then scan.lang else ParentLang(s.open);
          Running(s.open + [Elem(n.local, n.ns, lang, attrs, [], [])], levels, s.root, scan.table, scan.next)
  }

  // ---------- end_handler and cdata_handler ----------

  function AddChild(e: Elem, child: Elem): Elem {
    e.(children := e.children + [Child(child, [])])
  }

  function AddText(e: Elem, text: string): Elem {
    if |e.children| == 0 then e.(first := e.first + [text])
    else
      var k := |e.children| - 1;
      e.(children := e.children[k := e.children[k].(following := e.children[k].following + [text])])
  }

  function SetTop(open: seq<Elem>, e: Elem): seq<Elem>
    requires |open| > 0
  {
    open[..|open| - 1] + [e]
  }

  /** The finished element belongs to its parent, or is the document. */
  function Attach(open: seq<Elem>, e: Elem, root: Doc): (seq<Elem>, Doc) {
    if |open| == 0 then ([], HasRoot(e)) else (SetTop(open, AddChild(open[|open| - 1], e)), root)
  }

  predicate Allowed(s: State, ev: Event) {
    s.Failed? || (|s.scopes| == |s.open| && (ev.Start? || |s.open| > 0))
  }

  /** After an error, events are ignored. */
  function Step(s: State, ev: Event): State
    requires Allowed(s, ev)
  {
    if s.Failed? then s
    else
      match ev
      case Start(name, attrs) => StepStart(s, name, attrs)
      case End =>
        var k := |s.open| - 1;
        var attached := Attach(s.open[..k], s.open[k], s.root);
        Running(attached.0, s.scopes[..k], attached.1, s.table, s.next)
      case Cdata(text) => s.(open := SetTop(s.open, AddText(s.open[|s.open| - 1], text)))
  }

  // ---------- events of a document ----------

  function Events(raw: Raw): seq<Event>
    decreases raw, 1
  {
    [Start(raw.name, raw.attrs)] + ContentEvents(raw, 0) + [End]
  }

  function ContentEvents(raw: Raw, k: nat): seq<Event>
    requires k <= |raw.content|
    decreases raw, 0, |raw.content| - k
  {
    if k == |raw.content| then []
    else ItemEvents(raw, k) + ContentEvents(raw, k + 1)
  }

  function ItemEvents(raw: Raw, k: nat): seq<Event>
    requires k < |raw.content|
    decreases raw, 0, |raw.content| - k, 0
  {
    match raw.content[k]
    case Words(text) => [Cdata(text)]
    case Inside(child) => Events(child)
  }

  /** s' is reached from s by these events. */
  ghost predicate Reaches(s: State, events: seq<Event>, s': State)
    decreases |events|
  {
    if |events| == 0 then s' == s else Allowed(s, events[0]) && Reaches(Step(s, events[0]), events[1..], s')
  }

  lemma {:induction false} ReachesConcat(s: State, a: seq<Event>, mid: State, b: seq<Event>, s': State)
    requires Reaches(s, a, mid) && Reaches(mid, b, s')
    ensures Reaches(s, a + b, s')
    decreases |a|
  {
    if |a| == 0 {
      assert a + b == b;
    } else {
      assert (a + b)[1..] == a[1..] + b && (a + b)[0] == a[0];
      ReachesConcat(Step(s, a[0]), a[1..], mid, b, s');
    }
  }

  lemma {:induction false} FailedStays(code: int, events: seq<Event>)
    ensures Reaches(Failed(code), events, Failed(code))
  {
    if |events| > 0 {
      FailedStays(code, events[1..]);
    }
  }

  lemma ReachesOne(s: State, ev: Event)
    requires Allowed(s, ev)
    ensures Reaches(s, [ev], Step(s, ev))
  {
    assert [ev][1..] == [];
  }

  // ---------- what the numbers mean ----------

  predicate ScopesMean(scopes: seq<Scope>, decls: seq<Decl>, table: seq<string>) {
    && |scopes| == |decls|
    && forall i :: 0 <= i < |scopes| ==>
         && scopes[i].prefix == decls[i].prefix && scopes[i].emptyUri == (decls[i].uri == "")
         && Names(table, scopes[i].ns, Quoted(decls[i].uri, true))
  }

  predicate LevelsMean(levels: seq<seq<Scope>>, env: seq<seq<Decl>>, table: seq<string>) {
    |levels| == |env| && forall k :: 0 <= k < |levels| ==> ScopesMean(levels[k], env[k], table)
  }

  predicate LangMeans(lang: Lang, l: Language) {
    match l
    case Unspoken => lang.NoLang?
    case Spoken(text) => lang.Lang? && lang.text == Quoted(text, true)
  }

  predicate AttrMeans(a: Attr, x: XAttr, table: seq<string>) {
    a.name == x.name && a.value == x.value && Names(table, a.ns, Quoted(x.uri, true))
  }

  /** Every number names the quoted URI, and the languages that are written are the element's own. */
  predicate Matches(e: Elem, x: XElem, up: Up, table: seq<string>) {
    && e.name == x.name && Names(table, e.ns, Quoted(x.uri, true)) && LangMeans(e.lang, x.lang)
    && (OwnLang(e, up) <==> x.own)
    && |e.attrs| == |x.attrs| && (forall i :: 0 <= i < |e.attrs| ==> AttrMeans(e.attrs[i], x.attrs[i], table))
    && e.first == x.first && |e.children| == |x.children|
    && (forall i :: 0 <= i < |e.children| ==>
          e.children[i].following == x.children[i].following
          && Matches(e.children[i].elem, x.children[i].elem, Under(e.lang), table))
  }

  /** A longer table keeps every meaning. */
  lemma NamesGrow(table: seq<string>, longer: seq<string>, id: int, uri: string)
    requires table <= longer && Names(table, id, uri)
    ensures Names(longer, id, uri)
  {
  }

  lemma LevelsGrow(levels: seq<seq<Scope>>, env: seq<seq<Decl>>, table: seq<string>, longer: seq<string>)
    requires table <= longer && LevelsMean(levels, env, table)
    ensures LevelsMean(levels, env, longer)
  {
    forall k | 0 <= k < |levels|
      ensures ScopesMean(levels[k], env[k], longer)
    {
      assert ScopesMean(levels[k], env[k], table);
    }
  }

  lemma {:induction false} MatchesGrows(e: Elem, x: XElem, up: Up, table: seq<string>, longer: seq<string>)
    requires table <= longer && Matches(e, x, up, table)
    ensures Matches(e, x, up, longer)
    decreases e
  {
    forall i | 0 <= i < |e.children|
      ensures Matches(e.children[i].elem, x.children[i].elem, Under(e.lang), longer)
    {
      MatchesGrows(e.children[i].elem, x.children[i].elem, Under(e.lang), table, longer);
    }
  }

  // ---------- prefixes ----------

  lemma {:induction false} FindInMeans(scopes: seq<Scope>, decls: seq<Decl>, table: seq<string>, prefix: string)
    requires ScopesMean(scopes, decls, table)
    ensures match FindIn(scopes, prefix)
            case Hit(ns) => FirstIn(decls, prefix).Bound? && Names(table, ns, Quoted(FirstIn(decls, prefix).uri, true))
            case Miss => FirstIn(decls, prefix).Unbound?
  {
    if |scopes| > 0 && scopes[0].prefix != prefix {
      FindInMeans(scopes[1..], decls[1..], table, prefix);
    }
  }

  /** The number that is found names the URI of the innermost declaration. */
  lemma {:induction false} FindPrefixMeans(levels: seq<seq<Scope>>, env: seq<seq<Decl>>, table: seq<string>,
                                           prefix: string)
    requires LevelsMean(levels, env, table)
    ensures match Innermost(env, prefix)
            case Bound(uri) => Names(table, FindPrefix(levels, prefix), Quoted(uri, true))
            case Unbound => FindPrefix(levels, prefix) == if prefix == "" then NS_NONE else UNKNOWN_PREFIX
  {
    if |levels| > 0 {
      var k := |levels| - 1;
      FindInMeans(levels[k], env[k], table, prefix);
      FindPrefixMeans(levels[..k], env[..k], table, prefix);
    }
  }

  lemma ResolveMeans(name: string, isElem: bool, levels: seq<seq<Scope>>, env: seq<seq<Decl>>, table: seq<string>)
    requires LevelsMean(levels, env, table)
    ensures match Expand(Reserving, name, isElem, env)
            case Ok(n) => var r := Resolve(name, isElem, levels);
                          r.Ok? && r.value.local == n.local && Names(table, r.value.ns, Quoted(n.uri, true))
            case Error(code) => Resolve(name, isElem, levels) == Error(code)
  {
    var k := ColonAt(name);
    FindPrefixMeans(levels, env, table, if k < 0 then "" else name[..k]);
    assert name[-1 + 1..] == name;
    hide LevelsMean, FindPrefix, Innermost;
  }

  lemma {:induction false} ResolveAttrsMeans(attrs: seq<RawAttr>, levels: seq<seq<Scope>>, env: seq<seq<Decl>>,
                                             table: seq<string>)
    requires LevelsMean(levels, env, table)
    ensures match ExpandAttrs(Reserving, attrs, env)
            case Ok(xs) => var r := ResolveAttrs(attrs, levels);
                           r.Ok? && |r.value| == |xs| && forall i :: 0 <= i < |xs| ==>
                             AttrMeans(r.value[i], xs[i], table)
            case Error(code) => ResolveAttrs(attrs, levels) == Error(code)
  {
    if |attrs| > 0 {
      hide LevelsMean, Expand, Resolve;
      ResolveMeans(attrs[0].name, false, levels, env, table);
      ResolveAttrsMeans(attrs[1..], levels, env, table);
    }
  }

  // ---------- start tags ----------

  function EmptyScan(table: seq<string>, next: nat): Scan {
    Scan([], [], NoLang, table, next, false)
  }

  /** A scan means these attributes. */
  predicate ScanMeans(s: Scan, attrs: seq<RawAttr>, table: seq<string>, next: nat) {
    && s.kept == Plain(attrs) && ScopesMean(s.scopes, Decls(attrs), s.table)
    && table <= s.table && Proper(s.table) && next <= s.next
    && LangMeans(s.lang, OwnLanguage(attrs)) && (s.lang.Lang? ==> next <= s.lang.id < s.next)
  }

  lemma DeclareMeans(s: Scan, prefix: string, value: string, decls: seq<Decl>)
    requires ScopesMean(s.scopes, decls, s.table) && Proper(s.table)
    ensures var s' := Declare(s, prefix, value);
            ScopesMean(s'.scopes, [Decl(prefix, value)] + decls, s'.table) && s.table <= s'.table && Proper(s'.table)
  {
    InsertedNames(s.table, Quoted(value, true));
    QuotedEmpty(value);
    var s' := Declare(s, prefix, value);
    hide Inserted, Proper, Quoted;
    forall i | 0 <= i < |s'.scopes|
      ensures var d := ([Decl(prefix, value)] + decls)[i];
              s'.scopes[i].prefix == d.prefix && s'.scopes[i].emptyUri == (d.uri == "")
              && Names(s'.table, s'.scopes[i].ns, Quoted(d.uri, true))
    {
      if i > 0 {
        assert s'.scopes[i] == s.scopes[i - 1] && ([Decl(prefix, value)] + decls)[i] == decls[i - 1];
        NamesGrow(s.table, s'.table, s.scopes[i - 1].ns, Quoted(decls[i - 1].uri, true));
      }
    }
  }

  lemma QuotedEmpty(s: string)
    ensures Quoted(s, true) == "" <==> s == ""
  {
    QuotedUnchanged(s, true);
  }

  lemma {:induction false} ScanAttrsMeans(attrs: seq<RawAttr>, table: seq<string>, next: nat)
    requires Proper(table)
    ensures var s := ScanAttrs(attrs, EmptyScan(table, next));
            && (s.bad <==> exists i :: 0 <= i < |attrs| && BadDecl(attrs[i]))
            && (!s.bad ==> ScanMeans(s, attrs, table, next))
  {
    if |attrs| > 0 {
      var a, rest := attrs[0], ScanAttrs(attrs[1..], EmptyScan(table, next));
      ScanAttrsMeans(attrs[1..], table, next);
      if rest.bad {
        var i :| 0 <= i < |attrs[1..]| && BadDecl(attrs[1..][i]);
        assert BadDecl(attrs[i + 1]);
      } else {
        assert forall i :: 0 < i < |attrs| ==> attrs[i] == attrs[1..][i - 1];
        if IsDecl(a.name) && !BadDecl(a) {
          DeclareMeans(rest, DeclaredPrefix(a.name), a.value, Decls(attrs[1..]));
        }
        hide Proper, ScopesMean, Inserted, Quoted, BadDecl;
      }
    }
  }

  // ---------- whole documents ----------

  function UpOf(open: seq<Elem>): Up {
    if |open| == 0 then Root else Under(open[|open| - 1].lang)
  }

  /** A running parser whose scopes mean these declarations. */
  predicate Meaningful(s: State, env: seq<seq<Decl>>) {
    && s.Running? && |s.open| == |s.scopes| && LevelsMean(s.scopes, env, s.table) && Proper(s.table)
    && forall k :: 0 <= k < |s.open| && s.open[k].lang.Lang? ==> s.open[k].lang.id < s.next
  }

  /** A start tag opens an element with the meaning of its markup, or fails as that does. */
  lemma StartMeans(s: State, name: string, attrs: seq<RawAttr>, env: seq<seq<Decl>>, up: Language)
    requires Meaningful(s, env) && LangMeans(ParentLang(s.open), up)
    ensures match OpenMeaning(Reserving, name, attrs, env, up)
            case Error(code) => StepStart(s, name, attrs) == Failed(code)
            case Ok(x) =>
              var s' := StepStart(s, name, attrs);
              && Meaningful(s', env + [Decls(attrs)]) && |s'.open| == |s.open| + 1 && s'.open[..|s.open|] == s.open
              && s'.scopes[..|s.scopes|] == s.scopes && s.table <= s'.table && s'.root == s.root && s.next <= s'.next
              && Matches(s'.open[|s.open|], x, UpOf(s.open), s'.table)
  {
    var scan, inner := ScanAttrs(attrs, EmptyScan(s.table, s.next)), env + [Decls(attrs)];
    ScanAttrsMeans(attrs, s.table, s.next);
    if !scan.bad {
      var levels := s.scopes + [scan.scopes];
      LevelsGrow(s.scopes, env, s.table, scan.table);
      LevelsSnoc(s.scopes, env, scan.scopes, Decls(attrs), scan.table);
      ResolveMeans(name, true, levels, inner, scan.table);
      ResolveAttrsMeans(scan.kept, levels, inner, scan.table);
      if OpenMeaning(Reserving, name, attrs, env, up).Ok? {
        var x := OpenMeaning(Reserving, name, attrs, env, up).value;
        var e := Elem(Resolve(name, true, levels).value.local, Resolve(name, true, levels).value.ns,
                      if scan.lang.Lang? then scan.lang else ParentLang(s.open),
                      ResolveAttrs(scan.kept, levels).value, [], []);
        assert StepStart(s, name, attrs) == Running(s.open + [e], levels, s.root, scan.table, scan.next);
        LangOpens(s, scan, attrs, up);
        hide ScanAttrs, Resolve, ResolveAttrs, Expand, ExpandAttrs, LevelsMean, Proper, Decls, Plain, OwnLanguage,
          StepStart;
        OpenedIsMeaningful(s, e, scan, env, attrs, up);
        assert Matches(e, x, UpOf(s.open), scan.table);
      }
    }
  }

  /** The language of the new element is its own exactly when it has the attribute. */
  lemma LangOpens(s: State, scan: Scan, attrs: seq<RawAttr>, up: Language)
    requires s.Running? && LangMeans(ParentLang(s.open), up) && ScanMeans(scan, attrs, s.table, s.next)
    requires forall k :: 0 <= k < |s.open| && s.open[k].lang.Lang? ==> s.open[k].lang.id < s.next
    ensures var lang := if scan.lang.Lang? then scan.lang else ParentLang(s.open);
            && LangMeans(lang, NearestLanguage(attrs, up)) && (lang.Lang? ==> lang.id < scan.next)
            && forall e: Elem :: e.lang == lang ==> (OwnLang(e, UpOf(s.open)) <==> OwnLanguage(attrs).Spoken?)
  {
    hide ScopesMean, Proper, Plain, Decls, OwnLanguage;
  }

  lemma OpenedIsMeaningful(s: State, e: Elem, scan: Scan, env: seq<seq<Decl>>, attrs: seq<RawAttr>, up: Language)
    requires Meaningful(s, env) && ScanMeans(scan, attrs, s.table, s.next) && (e.lang.Lang? ==> e.lang.id < scan.next)
    requires LevelsMean(s.scopes + [scan.scopes], env + [Decls(attrs)], scan.table)
    ensures Meaningful(Running(s.open + [e], s.scopes + [scan.scopes], s.root, scan.table, scan.next),
            env + [Decls(attrs)])
  {
    hide LevelsMean, ScopesMean, Proper, Plain, Decls, OwnLanguage;
  }

  lemma LevelsSnoc(levels: seq<seq<Scope>>, env: seq<seq<Decl>>, scopes: seq<Scope>, decls: seq<Decl>,
                   table: seq<string>)
    requires LevelsMean(levels, env, table) && ScopesMean(scopes, decls, table)
    ensures LevelsMean(levels + [scopes], env + [decls], table)
  {
    hide ScopesMean;
  }

  lemma ChildMatches(e: Elem, x: XElem, up: Up, child: Elem, c: XElem, table: seq<string>)
    requires Matches(e, x, up, table) && Matches(child, c, Under(e.lang), table)
    ensures Matches(AddChild(e, child), WithChild(x, c), up, table)
  {
    var e', x' := AddChild(e, child), WithChild(x, c);
    forall i | 0 <= i < |e'.children|
      ensures e'.children[i].following == x'.children[i].following
      ensures Matches(e'.children[i].elem, x'.children[i].elem, Under(e'.lang), table)
    {
      if i < |e.children| {
        assert e'.children[i] == e.children[i] && x'.children[i] == x.children[i];
      }
    }
  }

  lemma TextMatches(e: Elem, x: XElem, up: Up, text: string, table: seq<string>)
    requires Matches(e, x, up, table)
    ensures Matches(AddText(e, text), WithText(x, text), up, table)
  {
    var e', x' := AddText(e, text), WithText(x, text);
    forall i | 0 <= i < |e'.children|
      ensures e'.children[i].following == x'.children[i].following
      ensures Matches(e'.children[i].elem, x'.children[i].elem, Under(e'.lang), table)
    {
      assert e'.children[i].elem == e.children[i].elem && x'.children[i].elem == x.children[i].elem;
    }
  }

  /** The element on top has grown, and nothing below it has changed. */
  predicate Grown(s: State, s': State, env: seq<seq<Decl>>, up: Up, x: XElem) {
    && Meaningful(s', env) && s.Running? && |s.open| == |s'.open| > 0
    && s'.open[..|s.open| - 1] == s.open[..|s.open| - 1] && s'.scopes == s.scopes
    && s.table <= s'.table && s'.root == s.root && Matches(s'.open[|s.open| - 1], x, up, s'.table)
  }

  /** The state after a whole element: it is attached where it belongs. */
  predicate Attached(s: State, s': State, env: seq<seq<Decl>>, x: XElem) {
    && Meaningful(s', env) && s.Running? && s.table <= s'.table && s'.scopes == s.scopes && |s'.open| == |s.open|
    && if |s.open| == 0 then s'.root.HasRoot? && Matches(s'.root.elem, x, Root, s'.table)
       else
         var k := |s.open| - 1;
         && s'.root == s.root && s'.open[..k] == s.open[..k] && |s'.open[k].children| == |s.open[k].children| + 1
         && s'.open[k] == AddChild(s.open[k], s'.open[k].children[|s.open[k].children|].elem)
         && Matches(s'.open[k].children[|s.open[k].children|].elem, x, Under(s.open[k].lang), s'.table)
  }

  /** The events of an element bring exactly its meaning into the tree, or the error that its meaning is. */
  lemma {:induction false} ElementMeans(s: State, raw: Raw, env: seq<seq<Decl>>, up: Language) returns (s': State)
    requires Meaningful(s, env) && LangMeans(ParentLang(s.open), up)
    ensures Reaches(s, Events(raw), s')
    ensures match Meant(Reserving, raw, env, up)
            case Error(code) => s' == Failed(code)
            case Ok(x) => Attached(s, s', env, x)
    decreases raw, 1
  {
    var start := Start(raw.name, raw.attrs);
    var s1, rest := Step(s, start), ContentEvents(raw, 0) + [End];
    StartMeans(s, raw.name, raw.attrs, env, up);
    ReachesOne(s, start);
    assert Events(raw) == [start] + rest;
    hide Step, Meaningful, Matches, Grown, Attached, Reaches;
    match OpenMeaning(Reserving, raw.name, raw.attrs, env, up)
    case Error(code) =>
      s' := Failed(code);
      StepIsStart(s, raw.name, raw.attrs);
      FailedStays(code, rest);
      ReachesConcat(s, [start], s1, rest, s');
    case Ok(x) =>
      StepIsStart(s, raw.name, raw.attrs);
      GrownByStart(s, s1, env + [Decls(raw.attrs)], UpOf(s.open), x);
      var s2 := ContentMeans(s1, raw, 0, x, env + [Decls(raw.attrs)], UpOf(s.open));
      ReachesConcat(s, [start], s1, ContentEvents(raw, 0), s2);
      match MeantContent(Reserving, raw, 0, x, env + [Decls(raw.attrs)]) {
        case Error(code) =>
          s' := Failed(code);
          FailedStays(code, [End]);
          ReachesConcat(s, [start] + ContentEvents(raw, 0), s2, [End], s');
        case Ok(x') =>
          EndMeans(s, s1, s2, env, Decls(raw.attrs), x');
          s' := Step(s2, End);
          ReachesOne(s2, End);
          ReachesConcat(s, [start] + ContentEvents(raw, 0), s2, [End], s');
      }
      assert [start] + ContentEvents(raw, 0) + [End] == [start] + rest;
  }

  lemma StepIsStart(s: State, name: string, attrs: seq<RawAttr>)
    requires Allowed(s, Start(name, attrs)) && s.Running?
    ensures Step(s, Start(name, attrs)) == StepStart(s, name, attrs)
  {
  }

  lemma GrownByStart(s: State, s1: State, env: seq<seq<Decl>>, up: Up, x: XElem)
    requires Meaningful(s1, env) && s.Running? && |s1.open| == |s.open| + 1 &&
             Matches(s1.open[|s.open|], x, up, s1.table)
    ensures Grown(s1, s1, env, up, x)
  {
    hide Matches, LevelsMean, Proper;
  }

  /** The end tag closes what the start tag opened. */
  lemma EndMeans(s: State, s1: State, s2: State, env: seq<seq<Decl>>, decls: seq<Decl>, x: XElem)
    requires Meaningful(s, env) && s1.Running? && |s1.open| == |s.open| + 1 && s1.open[..|s.open|] == s.open
    requires |s1.scopes| == |s1.open| && s1.scopes[..|s.scopes|] == s.scopes && s.table <= s1.table && s1.root == s.root
    requires Grown(s1, s2, env + [decls], UpOf(s.open), x)
    ensures Allowed(s2, End) && Attached(s, Step(s2, End), env, x)
  {
    var k := |s.open|;
    assert s2.open[..k] == s.open && s2.scopes[..k] == s.scopes;
    var s' := Step(s2, End);
    assert s'.scopes == s.scopes && s'.table == s2.table && s'.next == s2.next;
    LevelsPrefix(s2.scopes, env + [decls], k, s2.table);
    assert (env + [decls])[..k] == env;
    hide Matches, LevelsMean, Proper;
    assert forall j :: 0 <= j < k ==> s.open[j] == s2.open[j];
  }

  lemma LevelsPrefix(levels: seq<seq<Scope>>, env: seq<seq<Decl>>, k: nat, table: seq<string>)
    requires LevelsMean(levels, env, table) && k <= |levels|
    ensures LevelsMean(levels[..k], env[..k], table)
  {
    hide ScopesMean;
  }

  /** The contents from k on come into the element on top. */
  lemma {:induction false} ContentMeans(s: State, raw: Raw, k: nat, x: XElem, env: seq<seq<Decl>>, up: Up)
    returns (s': State)
    requires k <= |raw.content| && Grown(s, s, env, up, x)
    ensures Reaches(s, ContentEvents(raw, k), s')
    ensures match MeantContent(Reserving, raw, k, x, env)
            case Error(code) => s' == Failed(code)
            case Ok(x') => Grown(s, s', env, up, x')
    decreases raw, 0, |raw.content| - k
  {
    if k == |raw.content| {
      s' := s;
    } else {
      hide Grown, Reaches, Attached, Step;
      var rest := ContentEvents(raw, k + 1);
      match raw.content[k]
      case Words(text) =>
        var s1 := Step(s, Cdata(text));
        CdataMeans(s, text, x, env, up);
        ReachesOne(s, Cdata(text));
        s' := ContentMeans(s1, raw, k + 1, WithText(x, text), env, up);
        ReachesConcat(s, [Cdata(text)], s1, rest, s');
        GrownOn(s, s1, s', raw, k + 1, WithText(x, text), env, up);
      case Inside(child) =>
        TopMeans(s, x, env, up);
        var s1 := ElementMeans(s, child, env, x.lang);
        match Meant(Reserving, child, env, x.lang) {
          case Error(code) =>
            s' := Failed(code);
            FailedStays(code, rest);
            ReachesConcat(s, Events(child), s1, rest, s');
          case Ok(c) =>
            InsideMeans(s, s1, x, c, env, up);
            s' := ContentMeans(s1, raw, k + 1, WithChild(x, c), env, up);
            ReachesConcat(s, Events(child), s1, rest, s');
            GrownOn(s, s1, s', raw, k + 1, WithChild(x, c), env, up);
        }
    }
  }

  lemma TopMeans(s: State, x: XElem, env: seq<seq<Decl>>, up: Up)
    requires Grown(s, s, env, up, x)
    ensures Meaningful(s, env) && LangMeans(ParentLang(s.open), x.lang)
  {
  }

  lemma CdataMeans(s: State, text: string, x: XElem, env: seq<seq<Decl>>, up: Up)
    requires Grown(s, s, env, up, x)
    ensures Allowed(s, Cdata(text))
    ensures Grown(s, Step(s, Cdata(text)), env, up, WithText(x, text))
    ensures Grown(Step(s, Cdata(text)), Step(s, Cdata(text)), env, up, WithText(x, text))
  {
    TextMatches(s.open[|s.open| - 1], x, up, text, s.table);
    hide Matches, LevelsMean, Proper;
  }

  lemma InsideMeans(s: State, s1: State, x: XElem, c: XElem, env: seq<seq<Decl>>, up: Up)
    requires Grown(s, s, env, up, x) && Attached(s, s1, env, c)
    ensures Grown(s, s1, env, up, WithChild(x, c)) && Grown(s1, s1, env, up, WithChild(x, c))
  {
    var k := |s.open| - 1;
    MatchesGrows(s.open[k], x, up, s.table, s1.table);
    ChildMatches(s.open[k], x, up, s1.open[k].children[|s.open[k].children|].elem, c, s1.table);
    hide Matches, LevelsMean, Proper;
  }

  lemma GrownOn(s: State, s1: State, s': State, raw: Raw, k: nat, x: XElem, env: seq<seq<Decl>>, up: Up)
    requires k <= |raw.content| && Grown(s, s1, env, up, x)
    requires MeantContent(Reserving, raw, k, x, env).Ok? ==>
               Grown(s1, s', env, up, MeantContent(Reserving, raw, k, x, env).value)
    ensures MeantContent(Reserving, raw, k, x, env).Ok? ==>
              Grown(s, s', env, up, MeantContent(Reserving, raw, k, x, env).value)
  {
    hide Matches, LevelsMean, Proper, MeantContent;
  }

  // ---------- the parser from its creation ----------

  const DAV: string := "DAV:"

  function Created(): State {
    Running([], [], NoRoot, [DAV], 0)
  }

  /** Parsing a document gives the tree that the parser's reading of names makes of it, or the error of that reading. */
  lemma ReadingMeans(raw: Raw) returns (s: State)
    ensures Reaches(Created(), Events(raw), s)
    ensures match Meant(Reserving, raw, [], Unspoken)
            case Error(code) => s == Failed(code)
            case Ok(x) => s.Running? && s.root.HasRoot? && Matches(s.root.elem, x, Root, s.table) && Proper(s.table)
  {
    s := ElementMeans(Created(), raw, [], Unspoken);
  }

  /** A parsed tree means one tree only. */
  lemma {:induction false} MatchesOne(e: Elem, x: XElem, y: XElem, up: Up, table: seq<string>)
    requires Proper(table) && Matches(e, x, up, table) && Matches(e, y, up, table)
    ensures x == y
    decreases e
  {
    NumbersTellUris(table, e.ns, x.uri, e.ns, y.uri);
    assert x.lang == y.lang by { LangMeansOne(e.lang, x.lang, y.lang); }
    forall i | 0 <= i < |e.attrs| ensures x.attrs[i] == y.attrs[i] {
      var a := e.attrs[i];
      assert AttrMeans(a, x.attrs[i], table) && AttrMeans(a, y.attrs[i], table);
      NumbersTellUris(table, a.ns, x.attrs[i].uri, a.ns, y.attrs[i].uri);
    }
    forall i | 0 <= i < |e.children| ensures x.children[i] == y.children[i] {
      MatchesOne(e.children[i].elem, x.children[i].elem, y.children[i].elem, Under(e.lang), table);
    }
    assert x.attrs == y.attrs && x.children == y.children;
  }

  lemma LangMeansOne(lang: Lang, l: Language, m: Language)
    requires LangMeans(lang, l) && LangMeans(lang, m)
    ensures l == m
  {
    if l.Spoken? {
      QuotingIsInjective(l.text, m.text, true);
    }
  }

  /**
   Parsing a document gives its meaning under Namespaces in XML 1.0, an element tree in which every number names the
   quoted URI of the innermost declaration in a table of distinct URIs, exactly when no name with a prefix begins with
   xml; then a document without meaning also gives its error. A document with a meaning is always accepted.
   */
  lemma DocumentMeans(raw: Raw) returns (s: State)
    ensures Reaches(Created(), Events(raw), s)
    ensures s.Running? ==>
              && s.root.HasRoot? && Proper(s.table)
              && var m := Meant(Standard, raw, [], Unspoken);
                 m.Ok? && Matches(s.root.elem, m.value, Root, s.table) <==> PlainNames(raw)
    ensures match Meant(Standard, raw, [], Unspoken)
            case Error(code) => PlainNames(raw) ==> s == Failed(code)
            case Ok(_) => s.Running?
  {
    hide *;
    s := ReadingMeans(raw);
    DocumentAgrees(raw, [], Unspoken);
    var p, m := Meant(Reserving, raw, [], Unspoken), Meant(Standard, raw, [], Unspoken);
    assert p.Error? ==> m.Error? by { AgreeMeans(p, m, PlainNames(raw)); }
    AgreeMeans(p, m, PlainNames(raw));
    if s.Running? && m.Ok? && Matches(s.root.elem, m.value, Root, s.table) {
      MatchesOne(s.root.elem, p.value, m.value, Root, s.table);
    }
  }

  lemma AgreeMeans(p: Outcome<XElem>, m: Outcome<XElem>, plain: bool)
    requires Agree(p, m, plain)
    ensures p.Ok? ==> (p == m <==> plain)
    ensures (plain ==> p == m) && (p.Error? ==> m.Error?)
  {
  }

  /** For <XMLdata:item xmlns:XMLdata="urn:x"/> the parser loses the declared namespace. */
  lemma ReservedPrefixIsLost() returns (s: State)
    ensures var raw := Raw("XMLdata" + ":" + "item", [Declaring("XMLdata", "urn:x")], []);
            && Innermost([Decls(raw.attrs)], "XMLdata") == Bound("urn:x")
            && Meant(Standard, raw, [], Unspoken) == Ok(XElem("urn:x", "item", Unspoken, false, [], [], []))
            && Reaches(Created(), Events(raw), s) && s.Running? && s.root.HasRoot?
            && s.root.elem.ns == NS_NONE && s.root.elem.name == raw.name
  {
    var raw := Raw("XMLdata" + ":" + "item", [Declaring("XMLdata", "urn:x")], []);
    TagReadings("XMLdata", "item", "urn:x");
    hide Meant, Events, Innermost, Decls, Reaches, Created;
    s := ReadingMeans(raw);
    assert Names(s.table, s.root.elem.ns, Quoted("", true)) && Quoted("", true) == "";
  }

  /** In one parsed tree, two numbers are equal exactly when the URIs that they stand for are. */
  lemma NumbersTellUris(table: seq<string>, i: int, a: string, j: int, b: string)
    requires Proper(table) && Names(table, i, Quoted(a, true)) && Names(table, j, Quoted(b, true))
    ensures i == j <==> a == b
  {
    NamesAreUnique(table, i, Quoted(a, true), j, Quoted(b, true));
    if Quoted(a, true) == Quoted(b, true) {
      QuotingIsInjective(a, b, true);
    }
  }

  /** A parsed tree can be serialized: all its numbers are in the range of the sizing pass. */
  lemma {:induction false} ParsedIsNumbered(e: Elem, x: XElem, up: Up, table: seq<string>)
    requires Matches(e, x, up, table) && |table| <= NS_LIMIT
    ensures AllNumbered(e, NoMap)
    decreases e
  {
    forall i | 0 <= i < |e.children|
      ensures AllNumbered(e.children[i].elem, NoMap)
    {
      ParsedIsNumbered(e.children[i].elem, x.children[i].elem, Under(e.lang), table);
    }
    forall i | 0 <= i < |e.attrs|
      ensures Numbered(e.attrs[i].ns, NoMap)
    {
      assert AttrMeans(e.attrs[i], x.attrs[i], table);
    }
  }
}
