/** Splitting a text at a separator (lib/string/split.cpp). */
module Splitting {
  import opened Options

  predicate MatchAt(text: string, sep: string, i: nat) {
    i + |sep| <= |text| && text[i..i + |sep|] == sep
  }

  /** The search of the standard string class: the first match at or after a position. */
  function Find(text: string, sep: string, from: nat): (r: Option<nat>)
    ensures r.Some? ==> from <= r.value && r.value + |sep| <= |text|
    decreases |text| - from
  {
    if from + |sep| > |text| then None
    else if MatchAt(text, sep, from) then Some(from)
    else Find(text, sep, from + 1)
  }

  /** What is found is a match, and there is none before it. */
  lemma {:induction false} Leftmost(text: string, sep: string, from: nat, i: nat)
    requires from <= i
    ensures Find(text, sep, from) == Some(i) <==>
            MatchAt(text, sep, i) && forall j :: from <= j < i ==> !MatchAt(text, sep, j)
    decreases |text| - from
  {
    if from + |sep| <= |text| && !MatchAt(text, sep, from) && from < i {
      Leftmost(text, sep, from + 1, i);
    }
  }

  lemma {:induction false} NoMatch(text: string, sep: string, from: nat)
    ensures Find(text, sep, from).None? <==> forall j :: from <= j ==> !MatchAt(text, sep, j)
    decreases |text| - from
  {
    if from + |sep| <= |text| && !MatchAt(text, sep, from) {
      NoMatch(text, sep, from + 1);
    }
  }

  predicate Contains(text: string, sep: string) { Find(text, sep, 0).Some? }

  /** The tokens with the separator between them. */
  function Join(tokens: seq<string>, sep: string): string {
    if tokens == [] then ""
    else if |tokens| == 1 then tokens[0]
    else tokens[0] + sep + Join(tokens[1..], sep)
  }

  lemma {:induction false} JoinLast(tokens: seq<string>, last: string, sep: string)
    ensures Join(tokens + [last], sep) == if tokens == [] then last else Join(tokens, sep) + sep + last
    decreases |tokens|
  {
    if |tokens| > 1 {
      assert (tokens + [last])[1..] == tokens[1..] + [last];
      JoinLast(tokens[1..], last, sep);
      var rest := Join(tokens[1..], sep);
      assert tokens[0] + sep + (rest + sep + last) == tokens[0] + sep + rest + sep + last;
    } else if |tokens| == 1 {
      assert (tokens + [last])[1..] == [last];
    }
  }

  /** Cutting at the leftmost match, then going on behind it. */
  function Split(text: string, sep: string): (tokens: seq<string>)
    requires sep != ""
    ensures tokens != []
    decreases |text|
  {
    var cut := Find(text, sep, 0);
    if cut.None? then [text] else [text[..cut.value]] + Split(text[cut.value + |sep|..], sep)
  }

  /** Matches behind a prefix are the matches of the rest, shifted. */
  lemma MatchShift(front: string, rest: string, sep: string, j: nat)
    ensures MatchAt(front + rest, sep, |front| + j) <==> MatchAt(rest, sep, j)
  {
    if j + |sep| <= |rest| {
      assert (front + rest)[|front| + j..|front| + j + |sep|] == rest[j..j + |sep|];
    }
  }

  lemma {:induction false} FindShift(front: string, rest: string, sep: string, from: nat)
    ensures Find(front + rest, sep, |front| + from) ==
            match Find(rest, sep, from) case None => None case Some(i) => Some(|front| + i)
    decreases |rest| - from
  {
    MatchShift(front, rest, sep, from);
    if from + |sep| <= |rest| && !MatchAt(rest, sep, from) {
      FindShift(front, rest, sep, from + 1);
    }
  }

  lemma CutApart(text: string, sep: string, i: nat)
    requires Find(text, sep, 0) == Some(i)
    ensures text == text[..i] + sep + text[i + |sep|..]
  {
    Leftmost(text, sep, 0, i);
    assert text[i..i + |sep|] == sep;
    assert text == text[..i] + text[i..i + |sep|] + text[i + |sep|..];
  }

  /** Joining gives the text back. */
  lemma {:induction false} JoinSplit(text: string, sep: string)
    requires sep != ""
    ensures Join(Split(text, sep), sep) == text
    decreases |text|
  {
    var cut := Find(text, sep, 0);
    if cut.Some? {
      var i := cut.value;
      var rest := text[i + |sep|..];
      JoinSplit(rest, sep);
      var tokens := Split(text, sep);
      assert tokens[0] == text[..i] && tokens[1..] == Split(rest, sep);
      CutApart(text, sep, i);
    }
  }

  /** No token contains the separator. */
  lemma {:induction false} TokensFree(text: string, sep: string, k: nat)
    requires sep != "" && k < |Split(text, sep)|
    ensures !Contains(Split(text, sep)[k], sep)
    decreases |text|
  {
    hide Find, Contains;
    var cut := Find(text, sep, 0);
    if cut.Some? {
      var rest := text[cut.value + |sep|..];
      assert Split(text, sep) == [text[..cut.value]] + Split(rest, sep);
      if k == 0 {
        PrefixFree(text, sep, cut.value);
      } else {
        TokensFree(rest, sep, k - 1);
      }
    } else {
      WholeFree(text, sep);
    }
  }

  lemma WholeFree(text: string, sep: string)
    requires Find(text, sep, 0).None?
    ensures !Contains(text, sep)
  {
  }

  lemma PrefixFree(text: string, sep: string, i: nat)
    requires Find(text, sep, 0) == Some(i) && sep != ""
    ensures !Contains(text[..i], sep)
  {
    var inner := Find(text[..i], sep, 0);
    if inner.Some? {
      var j := inner.value;
      Leftmost(text[..i], sep, 0, j);
      assert text[..i][j..j + |sep|] == text[j..j + |sep|];
      assert MatchAt(text, sep, j);
      Leftmost(text, sep, 0, i);
    }
  }

  /** A token that is cut off exactly at the separator behind it: no match begins earlier and reaches into it. */
  predicate Cuts(token: string, sep: string) { Find(token + sep, sep, 0) == Some(|token|) }

  /** All tokens but the last are cut off by the separator behind them, and the last contains none. */
  ghost predicate Canonical(tokens: seq<string>, sep: string) {
    && tokens != []
    && (forall k :: 0 <= k < |tokens| - 1 ==> Cuts(tokens[k], sep))
    && !Contains(tokens[|tokens| - 1], sep)
  }

  /** What follows a cut token does not move the cut. */
  lemma CutStays(token: string, sep: string, rest: string)
    requires sep != ""
    ensures Find(token + sep + rest, sep, 0) == Some(|token|) <==> Cuts(token, sep)
  {
    var short, long := token + sep, token + sep + rest;
    forall j: nat | j <= |token| ensures MatchAt(short, sep, j) <==> MatchAt(long, sep, j) {
      assert short[j..j + |sep|] == long[j..j + |sep|];
    }
    Leftmost(short, sep, 0, |token|);
    Leftmost(long, sep, 0, |token|);
  }

  /** Exactly these tokens: split returns the one list that joins to the text and whose tokens are cut off where the
      separator stands. */
  lemma {:induction false} SplitUnique(text: string, sep: string, tokens: seq<string>)
    requires sep != ""
    ensures Split(text, sep) == tokens <==> Canonical(tokens, sep) && Join(tokens, sep) == text
    decreases |text|
  {
    JoinSplit(text, sep);
    SplitCanonical(text, sep);
    if Canonical(tokens, sep) && Join(tokens, sep) == text {
      CanonicalIsSplit(text, sep, tokens);
    }
  }

  lemma {:induction false} SplitCanonical(text: string, sep: string)
    requires sep != ""
    ensures Canonical(Split(text, sep), sep)
    decreases |text|
  {
    hide Find;
    var cut := Find(text, sep, 0);
    if cut.Some? {
      var i := cut.value;
      var rest := text[i + |sep|..];
      SplitCanonical(rest, sep);
      CutApart(text, sep, i);
      CutStays(text[..i], sep, rest);
      var tokens := Split(text, sep);
      forall k | 0 <= k < |tokens| - 1 ensures Cuts(tokens[k], sep) {
        if k > 0 { assert tokens[k] == Split(rest, sep)[k - 1]; }
      }
    }
  }

  lemma {:induction false} CanonicalIsSplit(text: string, sep: string, tokens: seq<string>)
    requires sep != "" && Canonical(tokens, sep) && Join(tokens, sep) == text
    ensures Split(text, sep) == tokens
    decreases |tokens|
  {
    hide Find, MatchAt;
    if |tokens| > 1 {
      var rest := Join(tokens[1..], sep);
      assert Cuts(tokens[0], sep);
      CutStays(tokens[0], sep, rest);
      assert text[|tokens[0]| + |sep|..] == rest && text[..|tokens[0]|] == tokens[0];
      assert Canonical(tokens[1..], sep);
      CanonicalIsSplit(rest, sep, tokens[1..]);
    }
  }

  /** With a single character split inverts join on every non-empty list of tokens free of it. */
  lemma SplitInvertsJoin(tokens: seq<string>, c: char)
    requires tokens != [] && forall k :: 0 <= k < |tokens| ==> c !in tokens[k]
    ensures Split(Join(tokens, [c]), [c]) == tokens
  {
    forall k | 0 <= k < |tokens| ensures Cuts(tokens[k], [c]) && !Contains(tokens[k], [c]) {
      CharFree(tokens[k], c);
    }
    CanonicalIsSplit(Join(tokens, [c]), [c], tokens);
  }

  lemma CharFree(token: string, c: char)
    ensures c !in token ==> Cuts(token, [c])
    ensures c !in token <==> !Contains(token, [c])
  {
    if c in token {
      var i: nat :| i < |token| && token[i] == c;
      assert MatchAt(token, [c], i);
      NoMatch(token, [c], 0);
    } else {
      forall j: nat | j < |token| ensures !MatchAt(token + [c], [c], j) && !MatchAt(token, [c], j) {
        assert token[j] in token;
        assert (token + [c])[j..j + 1] == [token[j]];
      }
      Leftmost(token + [c], [c], 0, |token|);
      NoMatch(token, [c], 0);
    }
  }

  lemma SplitFirst(text: string, sep: string)
    requires sep != ""
    ensures match Find(text, sep, 0)
            case None => Split(text, sep) == [text]
            case Some(cut) => Split(text, sep) == [text[..cut]] + Split(text[cut + |sep|..], sep)
  {
    hide Find;
  }

  lemma Slices(text: string, pos: nat, cut: nat, next: nat)
    requires pos <= cut <= next <= |text|
    ensures text[pos..][..cut - pos] == text[pos..cut] && text[pos..][next - pos..] == text[next..]
  {
  }

  lemma FindBehind(text: string, sep: string, pos: nat)
    requires pos <= |text|
    ensures match Find(text, sep, pos)
            case None => Find(text[pos..], sep, 0) == None
            case Some(i) => Find(text[pos..], sep, 0) == Some(i - pos) && i + |sep| <= |text|
  {
    hide Find;
    FindShift(text[..pos], text[pos..], sep, 0);
    assert text[..pos] + text[pos..] == text;
  }

  /** One round of the loop: the token up to the next match, then the pieces of what is behind it. */
  lemma SplitStep(text: string, sep: string, pos: nat)
    requires sep != "" && pos <= |text|
    ensures match Find(text, sep, pos)
            case None => Split(text[pos..], sep) == [text[pos..]]
            case Some(cut) => Split(text[pos..], sep) == [text[pos..cut]] + Split(text[cut + |sep|..], sep)
  {
    hide Find, Split, MatchAt;
    SplitFirst(text[pos..], sep);
    FindBehind(text, sep, pos);
    var cut := Find(text, sep, pos);
    if cut.Some? {
      Slices(text, pos, cut.value, cut.value + |sep|);
    }
  }

  /** The overload with a single character. */
  method SplitAtChar(text: string, separator: char) returns (result: seq<string>)
    ensures result == Split(text, [separator])
  {
    result := SplitFrom(text, [separator], 1);
  }

  /** The loop both overloads run: each time the leftmost match behind the last one. */
  method SplitFrom(text: string, separator: string, separatorLength: nat) returns (result: seq<string>)
    requires separator != "" && separatorLength == |separator|
    ensures result == Split(text, separator)
  {
    hide Find, Split;
    result := [];
    var posStart := 0;
    var done := false;
    assert text[0..] == text;
    while !done
      invariant posStart <= |text|
      invariant done ==> result == Split(text, separator)
      invariant !done ==> result + Split(text[posStart..], separator) == Split(text, separator)
      decreases !done, |text| - posStart
    {
      SplitStep(text, separator, posStart);
      var posEnd := Find(text, separator, posStart);
      if posEnd.None? {
        result := result + [text[posStart..]];
        done := true;
      } else {
        result := result + [text[posStart..posEnd.value]];
        posStart := posEnd.value + separatorLength;
      }
    }
  }

  /** The overload with a string: an empty separator does not split. The overloads agree on one character. */
  method SplitAtString(text: string, separator: string) returns (result: seq<string>)
    ensures separator == "" ==> result == [text]
    ensures separator != "" ==> result == Split(text, separator)
  {
    var separatorLength := |separator|;
    if separatorLength == 0 {
      return [text];
    }
    result := SplitFrom(text, separator, separatorLength);
  }
}
