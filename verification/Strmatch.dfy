/**
 Boyer-Moore-Horspool search: the shift table and the two matchers against the
 leftmost occurrence. The two matchers differ in how they fold a byte before
 comparing it: not at all, or to lower case.
 */
module Strmatch {

  newtype Byte = b: int | 0 <= b < 256

  const NUM_CHARS: nat := 256

  /** The pattern occurs at position i of the text, up to folding. */
  ghost predicate OccursAt(fold: Byte -> Byte, pat: seq<Byte>, text: seq<Byte>, i: int) {
    0 <= i && i + |pat| <= |text| && forall k :: 0 <= k < |pat| ==> fold(text[i + k]) == fold(pat[k])
  }

  /** i is the leftmost occurrence, or -1 if there is none. */
  ghost predicate Leftmost(fold: Byte -> Byte, pat: seq<Byte>, text: seq<Byte>, i: int) {
    && (i == -1 || OccursAt(fold, pat, text, i))
    && forall j :: 0 <= j && (i == -1 || j < i) ==> !OccursAt(fold, pat, text, j)
  }

  function Same(c: Byte): Byte {
    c
  }

  /** apr_tolower in the C locale */
  function ToLower(c: Byte): Byte {
    if 65 <= c <= 90 then c + 32 else c
  }

  /** The distance from the last of the first n pattern bytes that folds to c to the last byte; |pat| if none does. */
  function Distance(fold: Byte -> Byte, pat: seq<Byte>, n: nat, c: Byte): (d: nat)
    requires n < |pat|
    ensures 1 <= d <= |pat|
    ensures d < |pat| ==> |pat| - 1 - d < n && fold(pat[|pat| - 1 - d]) == c
    ensures forall i :: |pat| - 1 - d < i < n && 0 <= i ==> fold(pat[i]) != c
  {
    if n == 0 then |pat|
    else if fold(pat[n - 1]) == c then |pat| - n
    else Distance(fold, pat, n - 1, c)
  }

  ghost predicate IsTable(shift: array<int>, fold: Byte -> Byte, pat: seq<Byte>, n: nat)
    requires n < |pat|
    reads shift
  {
    shift.Length == NUM_CHARS && forall c :: 0 <= c < NUM_CHARS ==> shift[c] == Distance(fold, pat, n, c as Byte)
  }

  class Pattern {
    const pattern: seq<Byte>
    const nocase: bool
    const shift: array<int>

    function Fold(): Byte -> Byte {
      if nocase then ToLower else Same
    }

    ghost predicate Valid()
      reads shift
    {
      |pattern| > 0 ==> IsTable(shift, Fold(), pattern, |pattern| - 1)
    }

    /**
     apr_strmatch_precompile. The case-sensitive table is indexed by plain char, so its
     pattern bytes, other than the last, must be 7-bit where char is signed.
     */
    constructor (s: seq<Byte>, caseSensitive: bool)
      requires caseSensitive ==> forall i :: 0 <= i < |s| - 1 ==> s[i] < 128
      ensures Valid() && pattern == s && nocase == !caseSensitive
    {
      pattern, nocase := s, !caseSensitive;
      shift := new int[NUM_CHARS](_ => |s|);
      new;
      var i := 0;
      while i < |s| - 1
        invariant |s| > 0 ==> 0 <= i < |s|
        invariant |s| > 0 ==> IsTable(shift, Fold(), s, i)
      {
        shift[Fold()(s[i]) as int] := |s| - i - 1;
        i := i + 1;
      }
    }

    /** The matcher that precompile chose, called on a text. */
    method Match(text: seq<Byte>) returns (r: int)
      requires Valid()
      ensures Leftmost(Fold(), pattern, text, r)
      ensures |pattern| == 0 ==> r == 0
    {
      if |pattern| == 0 {
        return 0;
      }
      r := Horspool(Fold(), pattern, shift, text);
    }
  }

  /** If the byte under the end of the window is c, no window ends before the next pattern byte c is under it. */
  lemma ShiftIsSafe(fold: Byte -> Byte, pat: seq<Byte>, text: seq<Byte>, e: nat, j: int)
    requires |pat| > 0 && |pat| - 1 <= e < |text|
    requires e - |pat| + 1 < j < e - |pat| + 1 + Distance(fold, pat, |pat| - 1, fold(text[e]))
    ensures !OccursAt(fold, pat, text, j)
  {
    assert fold(pat[e - j]) != fold(text[j + (e - j)]);
  }

  method Horspool(fold: Byte -> Byte, pat: seq<Byte>, shift: array<int>, text: seq<Byte>) returns (r: int)
    requires |pat| > 0 && IsTable(shift, fold, pat, |pat| - 1)
    ensures Leftmost(fold, pat, text, r)
  {
    var next := |pat| - 1;
    while next < |text|
      invariant next >= |pat| - 1
      invariant forall j :: 0 <= j < next - |pat| + 1 ==> !OccursAt(fold, pat, text, j)
      decreases |text| - next
    {
      var tmp, p := next, |pat| - 1;
      while fold(text[tmp]) == fold(pat[p])
        invariant 0 <= p < |pat| && tmp == next - (|pat| - 1 - p)
        invariant forall k :: p < k < |pat| ==> fold(text[next - |pat| + 1 + k]) == fold(pat[k])
        decreases p
      {
        p := p - 1;
        if p < 0 {
          assert OccursAt(fold, pat, text, tmp);
          return tmp;
        }
        tmp := tmp - 1;
      }
      assert !OccursAt(fold, pat, text, next - |pat| + 1) by {
        assert text[next - |pat| + 1 + p] == text[tmp];
      }
      forall j | next - |pat| + 1 < j < next - |pat| + 1 + shift[fold(text[next]) as int]
        ensures !OccursAt(fold, pat, text, j)
      {
        ShiftIsSafe(fold, pat, text, next, j);
      }
      next := next + shift[fold(text[next]) as int];
    }
    return -1;
  }
}
