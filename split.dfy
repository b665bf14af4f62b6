/** Utils::split: tokenising on a set of delimiter characters. */
module Tokenize {

  /** What split appends, given the text still to scan and the token being
      built. A delimiter ends a non-empty token and is dropped; a delimiter met
      while the token is empty is kept as token text. */
  function SplitFrom(s: string, dels: seq<char>, tbuf: string): seq<string>
    decreases |s|
  {
    if s == [] then (if |tbuf| > 0 then [tbuf] else [])
    else if s[0] in dels && |tbuf| > 0 then [tbuf] + SplitFrom(s[1..], dels, "")
    else SplitFrom(s[1..], dels, tbuf + [s[0]])
  }

  /** The tokens split appends for input `s`. */
  function SplitTokens(s: string, dels: seq<char>): seq<string>
  {
    SplitFrom(s, dels, "")
  }

  lemma {:induction false} SplitFromNonEmpty(s: string, dels: seq<char>, tbuf: string)
    ensures forall k :: 0 <= k < |SplitFrom(s, dels, tbuf)| ==> |SplitFrom(s, dels, tbuf)[k]| > 0
  {
    if s != [] {
      if s[0] in dels && |tbuf| > 0 {
        SplitFromNonEmpty(s[1..], dels, "");
      } else {
        SplitFromNonEmpty(s[1..], dels, tbuf + [s[0]]);
      }
    }
  }

  /** Every token split pushes is non-empty. */
  lemma TokensNonEmpty(s: string, dels: seq<char>)
    ensures forall k :: 0 <= k < |SplitTokens(s, dels)| ==> |SplitTokens(s, dels)[k]| > 0
  {
    SplitFromNonEmpty(s, dels, "");
  }

  /** Only the first character of `t` may be a delimiter. */
  predicate DelimiterFreeTail(t: string, dels: seq<char>)
  {
    forall i :: 1 <= i < |t| ==> t[i] !in dels
  }

  lemma {:induction false} SplitFromTails(s: string, dels: seq<char>, tbuf: string)
    requires DelimiterFreeTail(tbuf, dels)
    ensures forall k :: 0 <= k < |SplitFrom(s, dels, tbuf)| ==> DelimiterFreeTail(SplitFrom(s, dels, tbuf)[k], dels)
  {
    if s != [] {
      if s[0] in dels && |tbuf| > 0 {
        SplitFromTails(s[1..], dels, "");
      } else {
        var t := tbuf + [s[0]];
        assert forall i :: 1 <= i < |t| ==> t[i] !in dels by {
          forall i | 1 <= i < |t| ensures t[i] !in dels {
            if i < |tbuf| { assert t[i] == tbuf[i]; }
          }
        }
        SplitFromTails(s[1..], dels, t);
      }
    }
  }

  /** Within a token only the first character can be a delimiter. */
  lemma DelimitersOnlyFirst(s: string, dels: seq<char>)
    ensures forall k :: 0 <= k < |SplitTokens(s, dels)| ==> DelimiterFreeTail(SplitTokens(s, dels)[k], dels)
  {
    SplitFromTails(s, dels, "");
  }

  lemma {:induction false} SplitFromNoDelimiters(s: string, dels: seq<char>, tbuf: string)
    requires forall i :: 0 <= i < |s| ==> s[i] !in dels
    requires |tbuf + s| > 0
    ensures SplitFrom(s, dels, tbuf) == [tbuf + s]
  {
    if s == [] {
      assert tbuf + s == tbuf;
    } else {
      assert s[0] !in dels;
      SplitFromNoDelimiters(s[1..], dels, tbuf + [s[0]]);
      assert tbuf + [s[0]] + s[1..] == tbuf + s;
    }
  }

  /** Input without delimiters, if non-empty, is one token. */
  lemma NoDelimitersOneToken(s: string, dels: seq<char>)
    requires |s| > 0 && forall i :: 0 <= i < |s| ==> s[i] !in dels
    ensures SplitTokens(s, dels) == [s]
  {
    SplitFromNoDelimiters(s, dels, "");
    assert "" + s == s;
  }

  /** A character that does not end a token is added to it. */
  lemma SplitFromKeep(s: string, dels: seq<char>, tbuf: string)
    requires s != [] && (s[0] !in dels || |tbuf| == 0)
    ensures SplitFrom(s, dels, tbuf) == SplitFrom(s[1..], dels, tbuf + [s[0]])
  {
  }

  /** A delimiter after a non-empty token ends it. */
  lemma SplitFromCut(s: string, dels: seq<char>, tbuf: string)
    requires s != [] && s[0] in dels && |tbuf| > 0
    ensures SplitFrom(s, dels, tbuf) == [tbuf] + SplitFrom(s[1..], dels, "")
  {
  }

  /** "/a//b" split on '/' gives "/a" and "/b": the second '/' of the pair
      arrives with an empty buffer and starts the next token. */
  lemma SplitExample(s: string, dels: seq<char>)
    requires s == "/a//b" && dels == ['/']
    ensures SplitTokens(s, dels) == ["/a", "/b"]
  {
    var s1, s2, s3, s4: string := s[1..], s[2..], s[3..], s[4..];
    assert s1 == "a//b";
    assert s2 == "//b";
    assert s3 == "/b";
    assert s4 == "b";
    SplitFromKeep(s, dels, "");
    SplitFromKeep(s1, dels, "/");
    SplitFromCut(s2, dels, "/a");
    SplitFromKeep(s3, dels, "");
    SplitFromKeep(s4, dels, "/");
    assert "" + [s[0]] == "/";
    assert "/" + [s1[0]] == "/a";
    assert "/" + [s4[0]] == "/b";
    assert s4[1..] == [];
  }

  /** Utils::split: appends the tokens of `input` to `ret0`, the earlier entries untouched. */
  method Split(input: string, dels: seq<char>, ret0: seq<string>) returns (ret: seq<string>)
    ensures ret == ret0 + SplitTokens(input, dels)
    ensures |ret| >= |ret0| && ret[..|ret0|] == ret0
  {
    ret := ret0;
    var tbuf: string := "";
    var n := 0;
    while n < |input|
      invariant 0 <= n <= |input|
      invariant ret + SplitFrom(input[n..], dels, tbuf) == ret0 + SplitTokens(input, dels)
    {
      var bDel := false;
      ghost var retBefore, tbufBefore := ret, tbuf;
      var idel := 0;
      while idel < |dels|
        invariant 0 <= idel <= |dels|
        invariant bDel <==> |tbufBefore| > 0 && input[n] in dels[..idel]
        invariant bDel ==> ret == retBefore + [tbufBefore] && tbuf == ""
        invariant !bDel ==> ret == retBefore && tbuf == tbufBefore
      {
        if input[n] == dels[idel] && |tbuf| > 0 {
          ret := ret + [tbuf];
          tbuf := "";
          bDel := true;
        }
        assert dels[..idel + 1] == dels[..idel] + [dels[idel]];
        idel := idel + 1;
      }
      assert dels[..idel] == dels;
      assert input[n..][1..] == input[n + 1..];
      if !bDel {
        tbuf := tbuf + [input[n]];
      }
      n := n + 1;
    }
    if |tbuf| > 0 {
      ret := ret + [tbuf];
    }
  }
}
