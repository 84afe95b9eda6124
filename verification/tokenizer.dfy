/** _split of src/lib/utils/load_table.hpp: cutting a line at a delimiter with std::getline. */
module Tokenizer {

  /** The position of the first delimiter, or the length. */
  function IndexOf(s: string, d: char): (k: nat)
    ensures k <= |s| && (k < |s| ==> s[k] == d)
    ensures forall j :: 0 <= j < k ==> s[j] != d
  {
    if s == [] || s[0] == d then 0 else 1 + IndexOf(s[1..], d)
  }

  /** What is left in the stream after a token that ends at k. */
  function After(s: string, k: nat): (rest: string)
    requires k <= |s| && s != []
    ensures |rest| < |s|
  {
    if k < |s| then s[k + 1..] else ""
  }

  function Split(s: string, d: char): seq<string>
    decreases |s|
  {
    if s == [] then []
    else
      var k := IndexOf(s, d);
      [s[..k]] + Split(After(s, k), d)
  }

  lemma IndexIsFirst(s: string, d: char, k: nat)
    requires k <= |s| && (k < |s| ==> s[k] == d) && forall j :: 0 <= j < k ==> s[j] != d
    ensures IndexOf(s, d) == k
  {
  }

  /** std::getline: fails at the end of the stream, otherwise takes the characters up to the delimiter, which it
      discards. */
  method GetLine(stream: string, d: char) returns (ok: bool, token: string, rest: string)
    ensures ok <==> stream != []
    ensures ok ==> token == stream[..IndexOf(stream, d)] && rest == After(stream, IndexOf(stream, d))
  {
    ok := stream != [];
    token, rest := "", stream;
    while rest != [] && rest[0] != d
      invariant stream == token + rest && d !in token
      decreases |rest|
    {
      token, rest := token + [rest[0]], rest[1..];
    }
    IndexIsFirst(stream, d, |token|);
    if rest != [] {
      rest := rest[1..];
    }
  }

  /** The tokens collected so far and those still to be read. */
  function SplitOnto(tokens: seq<string>, s: string, d: char): seq<string>
    decreases |s|
  {
    if s == [] then tokens
    else
      var k := IndexOf(s, d);
      SplitOnto(tokens + [s[..k]], After(s, k), d)
  }

  lemma {:induction false} SplitOntoAppends(tokens: seq<string>, s: string, d: char)
    ensures SplitOnto(tokens, s, d) == tokens + Split(s, d)
    decreases |s|
  {
    if s != [] {
      var k := IndexOf(s, d);
      SplitOntoAppends(tokens + [s[..k]], After(s, k), d);
      Associate(tokens, s[..k], Split(After(s, k), d));
    }
  }

  lemma Associate<T>(a: seq<T>, x: T, b: seq<T>)
    ensures (a + [x]) + b == a + ([x] + b)
  {
  }

  method SplitLine(s: string, d: char) returns (tokens: seq<string>)
    ensures tokens == Split(s, d)
  {
    tokens := [];
    var stream := s;
    SplitOntoAppends([], s, d);
    while true
      invariant SplitOnto(tokens, stream, d) == Split(s, d)
      decreases |stream|
    {
      var ok, token, rest := GetLine(stream, d);
      if !ok {
        return;
      }
      tokens, stream := tokens + [token], rest;
    }
  }

  function Join(tokens: seq<string>, d: char): string {
    if tokens == [] then ""
    else if |tokens| == 1 then tokens[0]
    else tokens[0] + [d] + Join(tokens[1..], d)
  }

  ghost predicate DelimiterFree(tokens: seq<string>, d: char) {
    forall t :: t in tokens ==> d !in t
  }

  /** One trailing delimiter is dropped. */
  function WithoutTrailing(s: string, d: char): string {
    if s != [] && s[|s| - 1] == d then s[..|s| - 1] else s
  }

  lemma TrailingOfConcat(token: string, rest: string, d: char)
    ensures WithoutTrailing(token + [d] + rest, d)
         == if rest == [] then token else token + [d] + WithoutTrailing(rest, d)
  {
    var s := token + [d] + rest;
    if rest == [] {
      assert s[..|s| - 1] == token;
    } else if rest[|rest| - 1] == d {
      assert s[..|s| - 1] == token + [d] + rest[..|rest| - 1];
    }
  }

  lemma JoinOneMore(token: string, rest: seq<string>, d: char)
    ensures Join([token] + rest, d) == if rest == [] then token else token + [d] + Join(rest, d)
  {
    assert ([token] + rest)[1..] == rest;
  }

  lemma JoinStep(token: string, rest: string, tokens: seq<string>, d: char)
    requires Join(tokens, d) == WithoutTrailing(rest, d) && (tokens == [] <==> rest == "")
    ensures Join([token] + tokens, d) == WithoutTrailing(token + [d] + rest, d)
  {
    JoinOneMore(token, tokens, d);
    TrailingOfConcat(token, rest, d);
  }

  /** The tokens are free of the delimiter and their join is the line, up to one trailing delimiter. */
  lemma {:induction false} SplitThenJoin(s: string, d: char)
    ensures DelimiterFree(Split(s, d), d)
    ensures Join(Split(s, d), d) == WithoutTrailing(s, d)
    decreases |s|
  {
    if s != [] {
      var k := IndexOf(s, d);
      var token, rest := s[..k], After(s, k);
      var tokens := Split(rest, d);
      SplitThenJoin(rest, d);
      AddToken(token, tokens, d);
      assert Split(s, d) == [token] + tokens;
      if k < |s| {
        JoinStep(token, rest, tokens, d);
        Reassemble(s, k);
      } else {
        LastToken(s, d);
      }
    }
  }

  lemma Reassemble(s: string, k: nat)
    requires k < |s|
    ensures s == s[..k] + [s[k]] + After(s, k)
  {
  }

  lemma LastToken(s: string, d: char)
    requires s != [] && IndexOf(s, d) == |s|
    ensures Split(s, d) == [s] && WithoutTrailing(s, d) == s
  {
    assert s[..|s|] == s && After(s, |s|) == "";
  }

  lemma AddToken(token: string, tokens: seq<string>, d: char)
    requires d !in token && DelimiterFree(tokens, d)
    ensures DelimiterFree([token] + tokens, d)
  {
  }

  lemma SplitFirst(t: string, d: char, rest: string)
    requires d !in t
    ensures Split(t + [d] + rest, d) == [t] + Split(rest, d)
  {
    var s := t + [d] + rest;
    forall j | 0 <= j < |t| ensures s[j] != d {
      assert s[j] == t[j];
    }
    IndexIsFirst(s, d, |t|);
    assert s[..|t|] == t && After(s, |t|) == rest;
  }

  lemma {:induction false} JoinThenSplitBack(tokens: seq<string>, d: char)
    requires tokens != [] && DelimiterFree(tokens, d) && tokens[|tokens| - 1] != ""
    ensures Split(Join(tokens, d), d) == tokens
  {
    assert tokens[0] in tokens;
    if |tokens| == 1 {
      var s := tokens[0];
      IndexIsFirst(s, d, |s|);
      assert s[..|s|] == s && After(s, |s|) == "";
    } else {
      JoinThenSplitBack(tokens[1..], d);
      SplitFirst(tokens[0], d, Join(tokens[1..], d));
      assert tokens == [tokens[0]] + tokens[1..];
    }
  }

  /** An empty last token leaves the join ending with a delimiter, or empty. */
  lemma {:induction false} JoinWithEmptyLast(tokens: seq<string>, d: char)
    requires tokens != [] && tokens[|tokens| - 1] == ""
    ensures var s := Join(tokens, d); if |tokens| == 1 then s == "" else s != "" && s[|s| - 1] == d
  {
    if |tokens| > 1 {
      JoinWithEmptyLast(tokens[1..], d);
    }
  }

  /** Splitting a join gives the tokens back exactly when there are none, or none holds the delimiter and the last
      one is not empty. */
  lemma JoinThenSplit(tokens: seq<string>, d: char)
    ensures Split(Join(tokens, d), d) == tokens <==>
      tokens == [] || (DelimiterFree(tokens, d) && tokens[|tokens| - 1] != "")
  {
    if tokens != [] {
      var s := Join(tokens, d);
      SplitThenJoin(s, d);
      if tokens[|tokens| - 1] == "" {
        JoinWithEmptyLast(tokens, d);
      } else if DelimiterFree(tokens, d) {
        JoinThenSplitBack(tokens, d);
      }
    }
  }
}
