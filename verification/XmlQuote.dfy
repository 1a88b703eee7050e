/** Quoting of XML strings, and the table of namespace URIs. A C string is the characters before its NUL. */
module XmlQuote {

  const NS_NONE: int := -10

  // ---------- quoting ----------

  /** What one character becomes. */
  function QuotedChar(c: char, quotes: bool): string {
    if c == '<' then "&lt;" else if c == '>' then "&gt;" else if c == '&' then "&amp;"
    else if quotes && c == '"' then "&quot;" else [c]
  }

  function Quoted(s: string, quotes: bool): string {
    if |s| == 0 then [] else QuotedChar(s[0], quotes) + Quoted(s[1..], quotes)
  }

  /** What quoted text stands for: each of the four references is one character. */
  function Unquoted(t: string): string {
    if |t| == 0 then []
    else if "&lt;" <= t then "<" + Unquoted(t[4..])
    else if "&gt;" <= t then ">" + Unquoted(t[4..])
    else if "&amp;" <= t then "&" + Unquoted(t[5..])
    else if "&quot;" <= t then "\"" + Unquoted(t[6..])
    else [t[0]] + Unquoted(t[1..])
  }

  lemma UnquotesChar(c: char, quotes: bool, rest: string)
    ensures Unquoted(QuotedChar(c, quotes) + rest) == [c] + Unquoted(rest)
  {
    var q := QuotedChar(c, quotes);
    assert (q + rest)[|q|..] == rest && (q + rest)[0] == q[0];
    if |q| > 1 {
      assert (q + rest)[1] == q[1];
    }
  }

  /** A quotation stands for the string that was quoted. */
  lemma {:induction false} UnquotesQuoted(s: string, quotes: bool)
    ensures Unquoted(Quoted(s, quotes)) == s
  {
    if |s| > 0 {
      UnquotesQuoted(s[1..], quotes);
      UnquotesChar(s[0], quotes, Quoted(s[1..], quotes));
      assert s == [s[0]] + s[1..];
    }
  }

  /** Different strings stay different. */
  lemma QuotingIsInjective(a: string, b: string, quotes: bool)
    requires Quoted(a, quotes) == Quoted(b, quotes)
    ensures a == b
  {
    UnquotesQuoted(a, quotes);
    UnquotesQuoted(b, quotes);
  }

  predicate Special(c: char, quotes: bool) {
    c == '<' || c == '>' || c == '&' || (quotes && c == '"')
  }

  /** A string without special characters is its own quotation, and only such a string is. */
  lemma {:induction false} QuotedUnchanged(s: string, quotes: bool)
    ensures |Quoted(s, quotes)| >= |s|
    ensures (forall i :: 0 <= i < |s| ==> !Special(s[i], quotes)) <==> Quoted(s, quotes) == s
  {
    if |s| > 0 {
      QuotedUnchanged(s[1..], quotes);
      assert s == [s[0]] + s[1..];
      var q := Quoted(s, quotes);
      if Special(s[0], quotes) {
        assert |q| > |s|;
      } else {
        assert q[1..] == Quoted(s[1..], quotes);
        assert forall i :: 0 < i < |s| ==> s[i] == s[1..][i - 1];
      }
    }
  }

  /** Markup characters occur in quoted text only as part of references. */
  lemma {:induction false} QuotedHasNoMarkup(s: string, quotes: bool)
    ensures '<' !in Quoted(s, quotes) && '>' !in Quoted(s, quotes) && (quotes ==> '"' !in Quoted(s, quotes))
  {
    if |s| > 0 {
      QuotedHasNoMarkup(s[1..], quotes);
    }
  }

  lemma QuotedStep(s: string, i: nat, quotes: bool)
    requires i < |s|
    ensures Quoted(s[..i + 1], quotes) == Quoted(s[..i], quotes) + QuotedChar(s[i], quotes)
  {
    assert s[..i + 1] == s[..i] + [s[i]];
    QuotedConcat(s[..i], [s[i]], quotes);
    assert [s[i]][1..] == [];
  }

  lemma {:induction false} QuotedConcat(a: string, b: string, quotes: bool)
    ensures Quoted(a + b, quotes) == Quoted(a, quotes) + Quoted(b, quotes)
  {
    if |a| == 0 {
      assert a + b == b;
    } else {
      hide QuotedChar;
      QuotedConcat(a[1..], b, quotes);
      assert (a + b)[0] == a[0] && (a + b)[1..] == a[1..] + b;
      ghost var q, qa, qb := QuotedChar(a[0], quotes), Quoted(a[1..], quotes), Quoted(b, quotes);
      assert q + (qa + qb) == (q + qa) + qb;
    }
  }

  lemma {:induction false} QuotedMonotone(s: string, i: nat, quotes: bool)
    requires i <= |s|
    ensures |Quoted(s[..i], quotes)| <= |Quoted(s, quotes)|
  {
    assert s == s[..i] + s[i..];
    QuotedConcat(s[..i], s[i..], quotes);
  }

  /** apr_xml_quote_string: one pass measures, and a second one fills a buffer of that size. */
  method QuoteString(s: string, quotes: bool) returns (r: string)
    ensures r == Quoted(s, quotes)
  {
    var len, extra := 0, 0;
    for i := 0 to |s|
      invariant len == i && len + extra == |Quoted(s[..i], quotes)| && extra >= 0
    {
      QuotedStep(s, i, quotes);
      var c := s[i];
      if c == '<' || c == '>' {
        extra := extra + 3;
      } else if c == '&' {
        extra := extra + 4;
      } else if quotes && c == '"' {
        extra := extra + 5;
      }
      len := len + 1;
    }
    assert s[..|s|] == s;
    if extra == 0 {
      QuotedSame(s, quotes);
      return s;
    }
    var qstr := new char[len + extra + 1];
    var q := 0;
    for i := 0 to |s|
      invariant q == |Quoted(s[..i], quotes)| && q < qstr.Length && qstr[..q] == Quoted(s[..i], quotes)
    {
      QuotedStep(s, i, quotes);
      QuotedMonotone(s, i + 1, quotes);
      q := Put(qstr, q, QuotedChar(s[i], quotes));
    }
    qstr[q] := '\0';
    r := qstr[..q];
  }

  lemma QuotedSame(s: string, quotes: bool)
    requires |Quoted(s, quotes)| == |s|
    ensures Quoted(s, quotes) == s
    decreases |s|
  {
    if |s| > 0 {
      QuotedUnchanged(s[1..], quotes);
      QuotedSame(s[1..], quotes);
      assert s == [s[0]] + s[1..];
    }
  }

  /** The characters of t go to the buffer from q on. */
  method Put(buf: array<char>, q: nat, t: string) returns (after: nat)
    requires q + |t| <= buf.Length
    modifies buf
    ensures after == q + |t| && buf[..after] == old(buf[..q]) + t
    ensures forall i :: after <= i < buf.Length ==> buf[i] == old(buf[i])
  {
    for i := 0 to |t|
      invariant buf[..q] == old(buf[..q]) && buf[q..q + i] == t[..i]
      invariant forall j :: q + i <= j < buf.Length ==> buf[j] == old(buf[j])
    {
      buf[q + i] := t[i];
    }
    after := q + |t|;
  }

  // ---------- the URI table ----------

  predicate NoDuplicates(table: seq<string>) {
    forall i, j :: 0 <= i < j < |table| ==> table[i] != table[j]
  }

  /** A table of distinct URIs, none of them empty. */
  predicate Proper(table: seq<string>) {
    NoDuplicates(table) && forall i :: 0 <= i < |table| ==> table[i] != ""
  }

  /** The number that stands for a URI. */
  predicate Names(table: seq<string>, id: int, uri: string) {
    if uri == "" then id == NS_NONE else 0 <= id < |table| && table[id] == uri
  }

  /** Two numbers from one table are equal exactly when the URIs are. */
  lemma NamesAreUnique(table: seq<string>, i: int, a: string, j: int, b: string)
    requires Proper(table) && Names(table, i, a) && Names(table, j, b)
    ensures i == j <==> a == b
  {
  }

  /** apr_xml_insert_uri: the URI's number if it is there, and otherwise the number of a new entry at the end. */
  method InsertUri(table: seq<string>, uri: string) returns (id: int, longer: seq<string>)
    ensures id == Inserted(table, uri).0 && longer == Inserted(table, uri).1
    ensures Names(longer, id, uri) && table <= longer <= table + [uri]
    ensures Proper(table) ==> Proper(longer)
  {
    InsertedNames(table, uri);
    if uri == "" {
      return NS_NONE, table;
    }
    var i := |table|;
    while i > 0
      invariant 0 <= i <= |table| && forall j :: i <= j < |table| ==> table[j] != uri
    {
      i := i - 1;
      if table[i] == uri {
        LastIndexIs(table, uri, i);
        return i, table;
      }
    }
    LastIndexIs(table, uri, -1);
    longer := table + [uri];
    id := |longer| - 1;
  }

  function LastIndex(table: seq<string>, uri: string): int {
    if |table| == 0 then -1 else if table[|table| - 1] == uri then |table| - 1 else LastIndex(table[..|table| - 1], uri)
  }

  lemma {:induction false} LastIndexIs(table: seq<string>, uri: string, i: int)
    requires -1 <= i < |table| && (i >= 0 ==> table[i] == uri) && forall j :: i < j < |table| ==> table[j] != uri
    ensures LastIndex(table, uri) == i
  {
    if i < |table| - 1 {
      LastIndexIs(table[..|table| - 1], uri, i);
    }
  }

  function Inserted(table: seq<string>, uri: string): (int, seq<string>) {
    if uri == "" then (NS_NONE, table)
    else if LastIndex(table, uri) >= 0 then (LastIndex(table, uri), table) else (|table|, table + [uri])
  }

  lemma {:induction false} LastIndexFinds(table: seq<string>, uri: string)
    ensures -1 <= LastIndex(table, uri) < |table|
    ensures if LastIndex(table, uri) >= 0 then table[LastIndex(table, uri)] == uri else uri !in table
  {
    if |table| > 0 && table[|table| - 1] != uri {
      LastIndexFinds(table[..|table| - 1], uri);
      assert table == table[..|table| - 1] + [table[|table| - 1]];
    }
  }

  /** Insertion keeps all numbers and all that makes the table proper. */
  lemma InsertedNames(table: seq<string>, uri: string)
    ensures var (id, longer) := Inserted(table, uri);
            Names(longer, id, uri) && table <= longer <= table + [uri] && (Proper(table) ==> Proper(longer))
  {
    LastIndexFinds(table, uri);
  }
}
