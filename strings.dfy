/** String helpers of Utils.cpp: the std::string searches they rely on, trimming,
    both replaceAll overloads, stripQuotes, enquote, equals and beginsWith. */
module Strings {

  datatype Option<T> = None | Some(value: T)

  // ---------------------------------------------------------------------------
  // The std::string primitives the helpers are built from
  // ---------------------------------------------------------------------------

  /** `pat` occurs in `s` starting at index `i`. */
  predicate OccursAt(s: string, pat: string, i: nat)
  {
    i + |pat| <= |s| && s[i..i + |pat|] == pat
  }

  /** Occurrences in a suffix are occurrences in the whole string, shifted. */
  lemma OccursAtDrop(s: string, pat: string, x: nat, j: nat)
    requires x <= |s|
    ensures OccursAt(s[x..], pat, j) <==> OccursAt(s, pat, x + j)
  {
    if x + j + |pat| <= |s| {
      assert s[x..][j..j + |pat|] == s[x + j..x + j + |pat|];
    }
  }

  /** std::string::find(c, from): the first index at or after `from` holding `c`. */
  function FindChar(s: string, c: char, from: nat): (r: Option<nat>)
    decreases |s| - from
    ensures r.Some? ==> from <= r.value < |s| && s[r.value] == c
    ensures r.Some? ==> forall k :: from <= k < r.value ==> s[k] != c
    ensures r.None? ==> forall k :: from <= k < |s| ==> s[k] != c
  {
    if from >= |s| then None
    else if s[from] == c then Some(from)
    else FindChar(s, c, from + 1)
  }

  /** std::string::find(pat, from): the first index at or after `from` where `pat` occurs. */
  function FindStr(s: string, pat: string, from: nat): (r: Option<nat>)
    decreases |s| - from
    ensures r.Some? ==> from <= r.value && OccursAt(s, pat, r.value)
    ensures r.Some? ==> forall k :: from <= k < r.value ==> !OccursAt(s, pat, k)
    ensures r.None? ==> forall k :: from <= k ==> !OccursAt(s, pat, k)
  {
    if from + |pat| > |s| then None
    else if s[from..from + |pat|] == pat then Some(from)
    else FindStr(s, pat, from + 1)
  }

  /** The last index before `j` holding `c`. */
  function RFindCharBefore(s: string, c: char, j: nat): (r: Option<nat>)
    requires j <= |s|
    ensures r.Some? ==> r.value < j && s[r.value] == c
    ensures r.Some? ==> forall k :: r.value < k < j ==> s[k] != c
    ensures r.None? ==> forall k :: 0 <= k < j ==> s[k] != c
  {
    if j == 0 then None
    else if s[j - 1] == c then Some(j - 1)
    else RFindCharBefore(s, c, j - 1)
  }

  /** std::string::rfind(c): the last index holding `c`. */
  function RFindChar(s: string, c: char): (r: Option<nat>)
    ensures r.Some? ==> r.value < |s| && s[r.value] == c
    ensures r.Some? ==> forall k :: r.value < k < |s| ==> s[k] != c
    ensures r.None? <==> c !in s
  {
    RFindCharBefore(s, c, |s|)
  }

  /** The last `c` is where rfind finds it. */
  lemma RFindCharAt(s: string, c: char, i: nat)
    requires i < |s| && s[i] == c
    requires forall k :: i < k < |s| ==> s[k] != c
    ensures RFindChar(s, c) == Some(i)
  {
    assert c in s;
  }

  /** std::string::rfind(pat, pos): the last index not after `pos` where `pat` occurs. */
  function RFindStr(s: string, pat: string, pos: nat): (r: Option<nat>)
    ensures r.Some? ==> r.value <= pos && OccursAt(s, pat, r.value)
    ensures r.Some? ==> forall k :: r.value < k <= pos ==> !OccursAt(s, pat, k)
    ensures r.None? ==> forall k :: 0 <= k <= pos ==> !OccursAt(s, pat, k)
  {
    if OccursAt(s, pat, pos) then Some(pos)
    else if pos == 0 then None
    else RFindStr(s, pat, pos - 1)
  }

  /** std::string::compare from position `i` on, both strings agreeing before it. */
  function CompareFrom(a: string, b: string, i: nat): (r: int)
    requires i <= |a| && i <= |b|
    decreases |a| - i
    ensures -1 <= r <= 1
    ensures r == 0 <==> |a| == |b| && forall k :: i <= k < |a| ==> a[k] == b[k]
  {
    if i == |a| && i == |b| then 0
    else if i == |a| then -1
    else if i == |b| then 1
    else if a[i] < b[i] then -1
    else if a[i] > b[i] then 1
    else CompareFrom(a, b, i + 1)
  }

  /** std::string::compare: lexicographic order, -1, 0 or 1. */
  function Compare(a: string, b: string): (r: int)
    ensures -1 <= r <= 1
    ensures r == 0 <==> a == b
  {
    var r := CompareFrom(a, b, 0);
    assert r == 0 && |a| == |b| ==> a == b;
    r
  }

  // ---------------------------------------------------------------------------
  // equals, beginsWith, enquote
  // ---------------------------------------------------------------------------

  /** Utils::equals: `a.compare(b) == 0`. */
  function Equals(a: string, b: string): (r: bool)
    ensures r <==> a == b
  {
    Compare(a, b) == 0
  }

  /** Utils::beginsWith: `search_str.rfind(prefix, 0) == 0`. */
  function BeginsWith(searchStr: string, prefix: string): (r: bool)
    ensures r <==> |prefix| <= |searchStr| && searchStr[..|prefix|] == prefix
  {
    RFindStr(searchStr, prefix, 0) == Some(0)
  }

  /** Utils::enquote: the input between two double quotes. */
  function Enquote(s: string): (r: string)
    ensures |r| == |s| + 2
    ensures r[0] == '"' && r[|r| - 1] == '"' && r[1..|r| - 1] == s
  {
    "\"" + s + "\""
  }

  // ---------------------------------------------------------------------------
  // stripQuotes: erase-remove of '"' and then of '\''
  // ---------------------------------------------------------------------------

  /** std::remove followed by erase: `s` without any `c`, the rest in order. */
  function RemoveChar(s: string, c: char): (r: string)
    ensures c !in r
    ensures |r| <= |s|
    ensures forall d :: d != c ==> multiset(r)[d] == multiset(s)[d]
    ensures forall d :: d != c ==> (d in r <==> d in s)
  {
    if s == [] then []
    else
      assert s == [s[0]] + s[1..];
      (if s[0] == c then [] else [s[0]]) + RemoveChar(s[1..], c)
  }

  lemma {:induction false} RemoveCharAppend(a: string, b: string, c: char)
    ensures RemoveChar(a + b, c) == RemoveChar(a, c) + RemoveChar(b, c)
  {
    if a != [] {
      assert (a + b)[1..] == a[1..] + b;
      RemoveCharAppend(a[1..], b, c);
    } else {
      assert a + b == b;
    }
  }

  lemma {:induction false} RemoveCharAbsent(s: string, c: char)
    requires c !in s
    ensures RemoveChar(s, c) == s
  {
    if s != [] {
      RemoveCharAbsent(s[1..], c);
    }
  }

  /** Utils::stripQuotes. */
  function StripQuotes(s: string): (r: string)
    ensures '"' !in r && '\'' !in r
    ensures forall d :: d != '"' && d != '\'' ==> multiset(r)[d] == multiset(s)[d]
  {
    RemoveChar(RemoveChar(s, '"'), '\'')
  }

  lemma StripQuotesAppend(a: string, b: string)
    ensures StripQuotes(a + b) == StripQuotes(a) + StripQuotes(b)
  {
    RemoveCharAppend(a, b, '"');
    RemoveCharAppend(RemoveChar(a, '"'), RemoveChar(b, '"'), '\'');
  }

  lemma StripQuotesIdempotent(s: string)
    ensures StripQuotes(StripQuotes(s)) == StripQuotes(s)
  {
    var r := StripQuotes(s);
    RemoveCharAbsent(r, '"');
    RemoveCharAbsent(r, '\'');
  }

  /** Quoting adds nothing that stripping keeps. */
  lemma StripQuotesOfEnquote(s: string)
    ensures StripQuotes(Enquote(s)) == StripQuotes(s)
  {
    StripQuotesAppend("\"" + s, "\"");
    StripQuotesAppend("\"", s);
  }

  // ---------------------------------------------------------------------------
  // trimBeg, trimEnd, trim
  // ---------------------------------------------------------------------------

  /** The end of the run of `c` that starts at `i`. */
  function LeadingRunEnd(s: string, c: char, i: nat): (j: nat)
    requires i <= |s|
    decreases |s| - i
    ensures i <= j <= |s|
    ensures j < |s| ==> s[j] != c
  {
    if i < |s| && s[i] == c then LeadingRunEnd(s, c, i + 1) else i
  }

  /** Everything from `i` up to that end is `c`. */
  lemma {:induction false} LeadingRunEndRun(s: string, c: char, i: nat)
    requires i <= |s|
    decreases |s| - i
    ensures forall k :: i <= k < LeadingRunEnd(s, c, i) ==> s[k] == c
  {
    if i < |s| && s[i] == c {
      LeadingRunEndRun(s, c, i + 1);
    }
  }

  /** The run of `c` from `j` on ends exactly at `i`. */
  lemma {:induction false} LeadingRunEndAt(s: string, c: char, j: nat, i: nat)
    requires j <= i <= |s|
    requires forall k :: j <= k < i ==> s[k] == c
    requires i < |s| ==> s[i] != c
    decreases i - j
    ensures LeadingRunEnd(s, c, j) == i
  {
    if j < i {
      LeadingRunEndAt(s, c, j + 1, i);
    }
  }

  /** The start of the run of `c` that ends just before `j`. */
  function TrailingRunStart(s: string, c: char, j: nat): (i: nat)
    requires j <= |s|
    ensures i <= j
    ensures i > 0 ==> s[i - 1] != c
  {
    if j > 0 && s[j - 1] == c then TrailingRunStart(s, c, j - 1) else j
  }

  /** Everything from that start up to `j` is `c`. */
  lemma {:induction false} TrailingRunStartRun(s: string, c: char, j: nat)
    requires j <= |s|
    ensures forall k :: TrailingRunStart(s, c, j) <= k < j ==> s[k] == c
  {
    if j > 0 && s[j - 1] == c {
      TrailingRunStartRun(s, c, j - 1);
    }
  }

  /** The run of `c` that ends before `j` starts exactly at `i`. */
  lemma {:induction false} TrailingRunStartAt(s: string, c: char, j: nat, i: nat)
    requires i <= j <= |s|
    requires forall k :: i <= k < j ==> s[k] == c
    requires i > 0 ==> s[i - 1] != c
    decreases j - i
    ensures TrailingRunStart(s, c, j) == i
  {
    if i < j {
      TrailingRunStartAt(s, c, j - 1, i);
    }
  }

  /** What trimBeg computes: `s` without its leading run of `c`. */
  function TrimmedBeg(s: string, c: char): (r: string)
    ensures |r| <= |s| && r == s[|s| - |r|..]
    ensures r == [] || r[0] != c
  {
    s[LeadingRunEnd(s, c, 0)..]
  }

  /** trimBeg removes only `c`. */
  lemma TrimmedBegRemovesRun(s: string, c: char)
    ensures forall k :: 0 <= k < |s| - |TrimmedBeg(s, c)| ==> s[k] == c
  {
    LeadingRunEndRun(s, c, 0);
  }

  /** What trimEnd computes: `s` without its trailing run of `c`. */
  function TrimmedEnd(s: string, c: char): (r: string)
    ensures |r| <= |s| && r == s[..|r|]
    ensures r == [] || r[|r| - 1] != c
  {
    s[..TrailingRunStart(s, c, |s|)]
  }

  /** trimEnd removes only `c`. */
  lemma TrimmedEndRemovesRun(s: string, c: char)
    ensures forall k :: |TrimmedEnd(s, c)| <= k < |s| ==> s[k] == c
  {
    TrailingRunStartRun(s, c, |s|);
  }

  /** What trim computes: trimBeg, then trimEnd. */
  function Trimmed(s: string, c: char): (r: string)
    ensures r == [] || (r[0] != c && r[|r| - 1] != c)
  {
    var t := TrimmedBeg(s, c);
    var r := TrimmedEnd(t, c);
    assert r != [] ==> r[0] == t[0];
    r
  }

  /** `r` is the slice of `s` at `i`, and everything around it is `c`. */
  ghost predicate IsTrimSlice(s: string, c: char, r: string, i: nat)
  {
    i + |r| <= |s| && r == s[i..i + |r|]
    && (forall k :: 0 <= k < i ==> s[k] == c)
    && (forall k :: i + |r| <= k < |s| ==> s[k] == c)
  }

  /** trim removes only leading and trailing `c`. */
  lemma TrimmedIsSlice(s: string, c: char)
    ensures exists i :: IsTrimSlice(s, c, Trimmed(s, c), i)
  {
    var t := TrimmedBeg(s, c);
    var r := TrimmedEnd(t, c);
    var i := |s| - |t|;
    TrimmedBegRemovesRun(s, c);
    TrimmedEndRemovesRun(t, c);
    assert t == s[i..];
    assert r == t[..|r|];
    assert r == s[i..i + |r|];
    forall k | i + |r| <= k < |s| ensures s[k] == c {
      assert s[k] == t[k - i];
    }
    assert r == Trimmed(s, c);
    assert IsTrimSlice(s, c, r, i);
  }

  /** A slice of `s` at `i` that is cut out of a run of `c` on each side and
      neither starts nor ends with `c`, is the trim of `s`. */
  lemma TrimmedUnique(s: string, c: char, r: string, i: nat)
    requires IsTrimSlice(s, c, r, i) && |r| > 0 && r[0] != c && r[|r| - 1] != c
    ensures Trimmed(s, c) == r
  {
    LeadingRunEndAt(s, c, 0, i);
    var t := TrimmedBeg(s, c);
    assert t == s[i..];
    TrailingRunStartAt(t, c, |t|, |r|);
    assert TrimmedEnd(t, c) == t[..|r|] == r;
  }

  lemma TrimmedBegNoop(s: string, c: char)
    requires s == [] || s[0] != c
    ensures TrimmedBeg(s, c) == s
  {
    LeadingRunEndAt(s, c, 0, 0);
    assert s[0..] == s;
  }

  lemma TrimmedEndNoop(s: string, c: char)
    requires s == [] || s[|s| - 1] != c
    ensures TrimmedEnd(s, c) == s
  {
    TrailingRunStartAt(s, c, |s|, |s|);
    assert s[..|s|] == s;
  }

  /** A string that neither starts nor ends with `c` is its own trim. */
  lemma TrimmedNoop(s: string, c: char)
    requires s == [] || (s[0] != c && s[|s| - 1] != c)
    ensures Trimmed(s, c) == s
  {
    TrimmedBegNoop(s, c);
    TrimmedEndNoop(s, c);
  }

  lemma TrimmedIdempotent(s: string, c: char)
    ensures Trimmed(Trimmed(s, c), c) == Trimmed(s, c)
  {
    TrimmedNoop(Trimmed(s, c), c);
  }

  lemma TrimmedExample(s: string)
    requires s == "//a//"
    ensures Trimmed(s, '/') == "a"
  {
    var r: string := "a";
    assert s[2..2 + |r|] == r;
    assert IsTrimSlice(s, '/', r, 2);
    TrimmedUnique(s, '/', r, 2);
  }

  /** Utils::trimBeg. */
  method TrimBeg(astr: string, trimch: char) returns (str: string)
    ensures str == TrimmedBeg(astr, trimch)
  {
    str := astr;
    ghost var i: nat := 0;
    while |str| > 0 && str[0] == trimch
      invariant i <= |astr| && str == astr[i..]
      invariant forall k :: 0 <= k < i ==> astr[k] == trimch
    {
      str := str[1..];
      i := i + 1;
    }
    LeadingRunEndAt(astr, trimch, 0, i);
  }

  /** Utils::trimEnd. */
  method TrimEnd(astr: string, trimch: char) returns (str: string)
    ensures str == TrimmedEnd(astr, trimch)
  {
    str := astr;
    while |str| > 0 && str[|str| - 1] == trimch
      invariant |str| <= |astr| && str == astr[..|str|]
      invariant forall k :: |str| <= k < |astr| ==> astr[k] == trimch
    {
      str := str[..|str| - 1];
    }
    TrailingRunStartAt(astr, trimch, |astr|, |str|);
  }

  /** Utils::trim. */
  method Trim(astr: string, trimch: char) returns (str: string)
    ensures str == Trimmed(astr, trimch)
  {
    str := TrimBeg(astr, trimch);
    str := TrimEnd(str, trimch);
  }

  // ---------------------------------------------------------------------------
  // replaceAll(str, char, char)
  // ---------------------------------------------------------------------------

  /** What the character replaceAll computes. */
  function ReplacedChar(s: string, from: char, to: char): (r: string)
    ensures |r| == |s|
    ensures forall k {:trigger r[k]} :: 0 <= k < |s| ==> r[k] == if s[k] == from then to else s[k]
  {
    seq(|s|, k requires 0 <= k < |s| => if s[k] == from then to else s[k])
  }

  /** Utils::replaceAll(str, charToRemove, charToAdd). */
  method ReplaceAllChar(str: string, charToRemove: char, charToAdd: char) returns (ret: string)
    ensures ret == ReplacedChar(str, charToRemove, charToAdd)
  {
    var x: nat := 0;
    ret := str;
    var ch := [charToAdd];
    while FindChar(ret, charToRemove, x).Some?
      invariant |ret| == |str| && x <= |ret|
      invariant forall k :: 0 <= k < x ==> ret[k] == if str[k] == charToRemove then charToAdd else str[k]
      invariant ret[x..] == str[x..]
      decreases |ret| - x
    {
      x := FindChar(ret, charToRemove, x).value;
      ret := ret[..x] + ch + ret[x + 1..];
      x := x + |ch|;
    }
    assert forall k :: x <= k < |str| ==> str[k] == ret[k] != charToRemove;
  }

  // ---------------------------------------------------------------------------
  // replaceAll(str, string, string)
  // ---------------------------------------------------------------------------

  /** What the string replaceAll does to `s` from index `i` on: left-to-right,
      non-overlapping replacement of `pat` by `rep`. */
  function ReplacedFrom(s: string, pat: string, rep: string, i: nat): string
    requires |pat| > 0 && i <= |s|
    decreases |s| - i
  {
    if |s| - i < |pat| then s[i..]
    else if OccursAt(s, pat, i) then rep + ReplacedFrom(s, pat, rep, i + |pat|)
    else [s[i]] + ReplacedFrom(s, pat, rep, i + 1)
  }

  /** What the string replaceAll computes; scanning goes on after the inserted text. */
  function ReplacedStr(s: string, pat: string, rep: string): string
    requires |pat| > 0
  {
    ReplacedFrom(s, pat, rep, 0)
  }

  lemma {:induction false} ReplacedFromNone(s: string, pat: string, rep: string, i: nat)
    requires |pat| > 0 && i <= |s|
    requires forall k :: i <= k ==> !OccursAt(s, pat, k)
    decreases |s| - i
    ensures ReplacedFrom(s, pat, rep, i) == s[i..]
  {
    if |s| - i >= |pat| {
      assert !OccursAt(s, pat, i);
      ReplacedFromNone(s, pat, rep, i + 1);
      assert [s[i]] + s[i + 1..] == s[i..];
    }
  }

  /** Without an occurrence of `pat` nothing is replaced. */
  lemma ReplacedStrNone(s: string, pat: string, rep: string)
    requires |pat| > 0
    requires forall k :: 0 <= k ==> !OccursAt(s, pat, k)
    ensures ReplacedStr(s, pat, rep) == s
  {
    ReplacedFromNone(s, pat, rep, 0);
    assert s[0..] == s;
  }

  /** Away from an occurrence, one character is copied. */
  lemma ReplacedFromCopy(s: string, pat: string, rep: string, i: nat)
    requires |pat| > 0 && i < |s| && !OccursAt(s, pat, i)
    ensures ReplacedFrom(s, pat, rep, i) == [s[i]] + ReplacedFrom(s, pat, rep, i + 1)
  {
    if |s| - i < |pat| {
      assert s[i..] == [s[i]] + s[i + 1..];
    }
  }

  /** From `i` on, the text up to the next occurrence `k` is copied, the
      occurrence is replaced and scanning resumes right after it. */
  lemma {:induction false} ReplacedFromFirst(s: string, pat: string, rep: string, i: nat, k: nat)
    requires |pat| > 0 && i <= k
    requires OccursAt(s, pat, k)
    requires forall j :: i <= j < k ==> !OccursAt(s, pat, j)
    decreases k - i
    ensures ReplacedFrom(s, pat, rep, i) == s[i..k] + rep + ReplacedFrom(s, pat, rep, k + |pat|)
  {
    if i < k {
      var rest := ReplacedFrom(s, pat, rep, k + |pat|);
      calc {
        ReplacedFrom(s, pat, rep, i);
        { assert !OccursAt(s, pat, i); ReplacedFromCopy(s, pat, rep, i); }
        [s[i]] + ReplacedFrom(s, pat, rep, i + 1);
        { ReplacedFromFirst(s, pat, rep, i + 1, k); }
        [s[i]] + (s[i + 1..k] + rep + rest);
        { ConsAppend(s[i], s[i + 1..k], rep, rest); }
        [s[i]] + s[i + 1..k] + rep + rest;
        { assert s[i..k] == [s[i]] + s[i + 1..k]; }
        s[i..k] + rep + rest;
      }
    } else {
      assert s[i..k] == [];
    }
  }

  lemma ConsAppend<T>(c: T, a: seq<T>, b: seq<T>, d: seq<T>)
    ensures [c] + (a + b + d) == [c] + a + b + d
  {
  }

  /** The first occurrence of `pat`, at `k`, is replaced and scanning resumes
      after it. */
  lemma ReplacedStrFirst(s: string, pat: string, rep: string, k: nat)
    requires |pat| > 0
    requires OccursAt(s, pat, k)
    requires forall j :: 0 <= j < k ==> !OccursAt(s, pat, j)
    ensures ReplacedStr(s, pat, rep) == s[..k] + rep + ReplacedFrom(s, pat, rep, k + |pat|)
  {
    ReplacedFromFirst(s, pat, rep, 0, k);
    assert s[0..k] == s[..k];
  }

  /** Strings that agree from `i` and from `j` on have the same occurrences there. */
  lemma OccursAtShift(s: string, t: string, pat: string, i: nat, j: nat, d: nat)
    requires i <= |s| && j <= |t| && s[i..] == t[j..]
    ensures OccursAt(s, pat, i + d) <==> OccursAt(t, pat, j + d)
  {
    OccursAtDrop(s, pat, i, d);
    OccursAtDrop(t, pat, j, d);
  }

  lemma {:induction false} ReplacedFromOfChars(s: string, from: char, to: char, i: nat)
    requires i <= |s|
    decreases |s| - i
    ensures ReplacedFrom(s, [from], [to], i) == ReplacedChar(s, from, to)[i..]
  {
    var r := ReplacedChar(s, from, to);
    if i < |s| {
      assert OccursAt(s, [from], i) <==> s[i] == from by {
        assert s[i..i + 1] == [s[i]];
      }
      ReplacedFromOfChars(s, from, to, i + 1);
      assert [r[i]] + r[i + 1..] == r[i..];
    }
  }

  /** On one-character strings the two overloads agree. */
  lemma ReplacedStrOfChars(s: string, from: char, to: char)
    ensures ReplacedStr(s, [from], [to]) == ReplacedChar(s, from, to)
  {
    ReplacedFromOfChars(s, from, to, 0);
    assert ReplacedChar(s, from, to)[0..] == ReplacedChar(s, from, to);
  }

  /** Inserted text is never rescanned: replacing "a" by "aa" doubles each "a" once. */
  lemma ReplacedStrExample(s: string, pat: string, rep: string)
    requires s == "aba" && pat == "a" && rep == "aa"
    ensures ReplacedStr(s, pat, rep) == "aabaa"
  {
    assert s[1..2] == "b";
    assert OccursAt(s, pat, 0) && !OccursAt(s, pat, 1) && OccursAt(s, pat, 2);
    assert ReplacedFrom(s, pat, rep, 3) == [];
    assert ReplacedFrom(s, pat, rep, 2) == rep;
    assert ReplacedFrom(s, pat, rep, 1) == "b" + rep;
  }

  /** What find reports in `ret` from `x` is the first occurrence in `str` from
      `i`, when the two agree from there on. */
  lemma FindStrShift(ret: string, str: string, pat: string, x: nat, i: nat, p: nat, k: nat)
    requires x <= |ret| && i <= |str| && ret[x..] == str[i..]
    requires x <= p && k == i + (p - x)
    requires OccursAt(ret, pat, p) && forall j :: x <= j < p ==> !OccursAt(ret, pat, j)
    ensures p + |pat| <= |ret| && OccursAt(str, pat, k)
    ensures forall j :: i <= j < k ==> !OccursAt(str, pat, j)
  {
    OccursAtShift(ret, str, pat, x, i, p - x);
    forall j | i <= j < k ensures !OccursAt(str, pat, j) {
      OccursAtShift(ret, str, pat, x, i, j - i);
    }
  }

  /** The pieces of `ret'`, which is `ret` with the `m` characters at `p`
      replaced by `rep`. */
  lemma SpliceSlices(ret: string, ret': string, str: string, rep: string, x: nat, i: nat, p: nat, m: nat, x': nat, k: nat, i': nat)
    requires x <= p && p + m <= |ret| && i <= |str| && ret[x..] == str[i..]
    requires ret' == ret[..p] + rep + ret[p + m..] && x' == p + |rep| && k == i + (p - x) && i' == k + m
    ensures x' <= |ret'| && i' <= |str|
    ensures ret'[..x'] == ret[..x] + str[i..k] + rep
    ensures ret'[x'..] == str[i'..]
  {
    assert ret[x..p] == ret[x..][..p - x] == str[i..][..p - x] == str[i..k];
    assert ret[p + m..] == ret[x..][p + m - x..] == str[i..][p + m - x..] == str[k + m..];
    assert ret[..p] == ret[..x] + ret[x..p];
    assert ret'[..x'] == ret[..p] + rep;
    assert ret'[x'..] == ret[p + m..];
  }

  /** One round of the replaceAll loop keeps its invariant: the part of `ret`
      before `x` followed by the replacement of `str` from `i` on is the whole
      replacement. */
  lemma ReplaceStep(str: string, pat: string, rep: string, ret: string, x: nat, i: nat, p: nat)
      returns (ret': string, x': nat, i': nat)
    requires |pat| > 0 && x <= |ret| && i <= |str| && ret[x..] == str[i..]
    requires ret[..x] + ReplacedFrom(str, pat, rep, i) == ReplacedStr(str, pat, rep)
    requires FindStr(ret, pat, x) == Some(p)
    ensures p + |pat| <= |ret|
    ensures ret' == ret[..p] + rep + ret[p + |pat|..] && x' == p + |rep| && i' == i + (p - x) + |pat|
    ensures x' <= |ret'| && i < i' <= |str| && ret'[x'..] == str[i'..]
    ensures ret'[..x'] + ReplacedFrom(str, pat, rep, i') == ReplacedStr(str, pat, rep)
  {
    var k := i + (p - x);
    FindStrShift(ret, str, pat, x, i, p, k);
    ret', x', i' := ReplaceAt(str, pat, rep, ret, x, i, p, k);
  }

  /** ReplaceStep once the occurrence at `p` in `ret` is known to be the first
      occurrence from `i` on in `str`, at `k`. */
  lemma ReplaceAt(str: string, pat: string, rep: string, ret: string, x: nat, i: nat, p: nat, k: nat)
      returns (ret': string, x': nat, i': nat)
    requires |pat| > 0 && x <= p && p + |pat| <= |ret| && i <= |str| && ret[x..] == str[i..] && k == i + (p - x)
    requires OccursAt(str, pat, k) && forall j :: i <= j < k ==> !OccursAt(str, pat, j)
    requires ret[..x] + ReplacedFrom(str, pat, rep, i) == ReplacedStr(str, pat, rep)
    ensures ret' == ret[..p] + rep + ret[p + |pat|..] && x' == p + |rep| && i' == k + |pat|
    ensures x' <= |ret'| && i < i' <= |str| && ret'[x'..] == str[i'..]
    ensures ret'[..x'] + ReplacedFrom(str, pat, rep, i') == ReplacedStr(str, pat, rep)
  {
    ret' := ret[..p] + rep + ret[p + |pat|..];
    x' := p + |rep|;
    i' := k + |pat|;
    SpliceSlices(ret, ret', str, rep, x, i, p, |pat|, x', k, i');
    ReplaceStepEquation(str, pat, rep, ret[..x], ret'[..x'], i, k, i');
  }

  /** The replacement from `i` on, with the first occurrence at `k` dealt with. */
  lemma ReplaceStepEquation(str: string, pat: string, rep: string, done: string, done': string, i: nat, k: nat, i': nat)
    requires |pat| > 0 && i <= k && i' == k + |pat| && i' <= |str|
    requires OccursAt(str, pat, k) && forall j :: i <= j < k ==> !OccursAt(str, pat, j)
    requires done' == done + str[i..k] + rep
    requires done + ReplacedFrom(str, pat, rep, i) == ReplacedStr(str, pat, rep)
    ensures done' + ReplacedFrom(str, pat, rep, i') == ReplacedStr(str, pat, rep)
  {
    var rest := ReplacedFrom(str, pat, rep, i');
    calc {
      done' + rest;
      { Regroup(done, str[i..k], rep, rest); }
      done + (str[i..k] + rep + rest);
      { ReplacedFromFirst(str, pat, rep, i, k); }
      done + ReplacedFrom(str, pat, rep, i);
    }
  }

  lemma Regroup<T>(a: seq<T>, b: seq<T>, c: seq<T>, d: seq<T>)
    ensures a + b + c + d == a + (b + c + d)
  {
  }

  /** Utils::replaceAll(str, strToRemove, strToAdd); the source loops forever on an
      empty `strToRemove`, hence the precondition. */
  method ReplaceAllStr(str: string, strToRemove: string, strToAdd: string) returns (ret: string)
    requires |strToRemove| > 0
    ensures ret == ReplacedStr(str, strToRemove, strToAdd)
  {
    var x: nat := 0;
    ret := str;
    ghost var i: nat := 0;
    while FindStr(ret, strToRemove, x).Some?
      invariant x <= |ret| && i <= |str|
      invariant ret[x..] == str[i..]
      invariant ret[..x] + ReplacedFrom(str, strToRemove, strToAdd, i) == ReplacedStr(str, strToRemove, strToAdd)
      decreases |str| - i
    {
      var p := FindStr(ret, strToRemove, x).value;
      ghost var ret', x', i' := ReplaceStep(str, strToRemove, strToAdd, ret, x, i, p);
      ret := ret[..p] + strToAdd + ret[p + |strToRemove|..];
      x := p + |strToAdd|;
      i := i';
    }
    ReplaceDone(str, strToRemove, strToAdd, ret, x, i);
  }

  /** When find reports nothing more, the replaceAll loop's invariant gives the
      whole replacement. */
  lemma ReplaceDone(str: string, pat: string, rep: string, ret: string, x: nat, i: nat)
    requires |pat| > 0 && x <= |ret| && i <= |str| && ret[x..] == str[i..]
    requires ret[..x] + ReplacedFrom(str, pat, rep, i) == ReplacedStr(str, pat, rep)
    requires FindStr(ret, pat, x).None?
    ensures ret == ReplacedStr(str, pat, rep)
  {
    calc {
      ret;
      { assert ret == ret[..x] + ret[x..]; }
      ret[..x] + str[i..];
      {
        forall j | i <= j ensures !OccursAt(str, pat, j) {
          OccursAtShift(ret, str, pat, x, i, j - i);
        }
        ReplacedFromNone(str, pat, rep, i);
      }
      ret[..x] + ReplacedFrom(str, pat, rep, i);
    }
  }
}
